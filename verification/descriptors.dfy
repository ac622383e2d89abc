/**
 * MPEG PSI/SI descriptor lists as values: binary descriptors, the private
 * data specifier each element of a list carries, the bytes a list reads from
 * and writes to memory, and the removal rules for private_data_specifier
 * descriptors. Module DescriptorLists builds the QtsDescriptorList object on
 * these definitions.
 */
module Descriptors {
  import opened Bytes

  /** Tag of the private_data_specifier_descriptor. */
  const PdsTag := 0x5F

  /** Tags from 0x80 up are private descriptors, meaningful only under a private data specifier. */
  const FirstPrivateTag := 0x80

  /** A binary descriptor: tag, length byte, payload. */
  datatype Descriptor = Descriptor(data: seq<byte>)

  /**
   * A well-formed descriptor: a tag, a length byte and exactly that many
   * payload bytes.
   */
  predicate IsValid(d: Descriptor)
  {
    |d.data| >= 2 && |d.data| == d.data[1] as int + 2
  }

  /** tag(): the first byte, 0 for an empty descriptor. */
  function Tag(d: Descriptor): byte
  {
    if |d.data| == 0 then 0 else d.data[0]
  }

  /** payloadSize(): the bytes after tag and length, 0 for an empty descriptor. */
  function PayloadSize(d: Descriptor): int
  {
    if |d.data| == 0 then 0 else |d.data| - 2
  }

  /** The specifier a private_data_specifier_descriptor declares: its first four payload bytes, 0 when shorter. */
  function DeclaredPds(d: Descriptor): (r: nat)
    ensures r < Two32
  {
    if PayloadSize(d) < 4 then 0 else BE32(d.data, 2)
  }

  /** An element of the list: a descriptor and the private data specifier in force for it. */
  datatype Element = Element(desc: Descriptor, pds: nat)

  function Descs(l: seq<Element>): (r: seq<Descriptor>)
    ensures |r| == |l| && forall k :: 0 <= k < |l| ==> r[k] == l[k].desc
  {
    seq(|l|, k requires 0 <= k < |l| => l[k].desc)
  }

  /**
   * The specifier a descriptor appended after `l` gets: the one it declares
   * if it is a private_data_specifier_descriptor, else that of the last
   * element, else 0.
   */
  function NextPds(l: seq<Element>, d: Descriptor): nat
  {
    if Tag(d) == PdsTag then DeclaredPds(d) else if |l| == 0 then 0 else l[|l| - 1].pds
  }

  /** Every element carries the specifier it gets when the list is built by appending. */
  predicate Inherits(l: seq<Element>)
  {
    forall i :: 0 <= i < |l| ==> l[i].pds == NextPds(l[..i], l[i].desc)
  }

  /** Every descriptor in the list is well formed. */
  predicate AllValid(l: seq<Element>)
  {
    forall i :: 0 <= i < |l| ==> IsValid(l[i].desc)
  }

  /** Index of the last private_data_specifier_descriptor at or before `i`, -1 when there is none. */
  function LastPdsIndex(l: seq<Element>, i: int): (r: int)
    requires -1 <= i < |l|
    ensures -1 <= r <= i
    ensures r >= 0 ==> Tag(l[r].desc) == PdsTag
    ensures forall k :: r < k <= i ==> Tag(l[k].desc) != PdsTag
    decreases i + 1
  {
    if i < 0 then -1 else if Tag(l[i].desc) == PdsTag then i else LastPdsIndex(l, i - 1)
  }

  /**
   * In a list built by appending, an element's specifier is the one declared
   * by the closest private_data_specifier_descriptor at or before it, or 0
   * when there is none.
   */
  lemma {:induction false} PdsIsLastDeclared(l: seq<Element>, i: int)
    requires Inherits(l) && 0 <= i < |l|
    ensures var j := LastPdsIndex(l, i); l[i].pds == if j < 0 then 0 else DeclaredPds(l[j].desc)
  {
    assert l[i].pds == NextPds(l[..i], l[i].desc);
    if Tag(l[i].desc) != PdsTag && i > 0 {
      PdsIsLastDeclared(l, i - 1);
    }
  }

  /** Appending an element with the specifier NextPds gives keeps the list consistent. */
  lemma AppendInherits(l: seq<Element>, d: Descriptor)
    ensures Inherits(l) ==> Inherits(l + [Element(d, NextPds(l, d))])
  {
    var r := l + [Element(d, NextPds(l, d))];
    if Inherits(l) {
      forall i | 0 <= i < |r|
        ensures r[i].pds == NextPds(r[..i], r[i].desc)
      {
        assert r[..i] == if i < |l| then l[..i] else l;
      }
    }
  }

  /** Appending one more descriptor after those of AppendAll. */
  lemma {:induction false} AppendAllSnoc(l: seq<Element>, ds: seq<Descriptor>, d: Descriptor)
    ensures AppendAll(l, ds + [d]) == AppendAll(l, ds) + [Element(d, NextPds(AppendAll(l, ds), d))]
    decreases |ds|
  {
    if |ds| == 0 {
      assert ds + [d] == [d] && [d][1..] == [];
    } else {
      assert (ds + [d])[0] == ds[0] && (ds + [d])[1..] == ds[1..] + [d];
      AppendAllSnoc(l + [Element(ds[0], NextPds(l, ds[0]))], ds[1..], d);
    }
  }

  /** The private_data_specifier_descriptor for `pds` (section 6.2.31 of ETSI EN 300 468): tag, length 4, the 32-bit value. */
  function PdsDescriptor(pds: nat): (r: Descriptor)
    requires pds < Two32
    ensures IsValid(r) && Tag(r) == PdsTag && DeclaredPds(r) == pds
  {
    var v := EncodeBE32(pds);
    var data := [PdsTag, 4] + v;
    assert BE32(data, 2) == BE32(v, 0);
    Descriptor(data)
  }

  /** search's test: the tag matches and, for a private tag searched under a specifier, so does the specifier. */
  predicate Matches(e: Element, tag: byte, pds: nat)
  {
    Tag(e.desc) == tag && (pds == 0 || tag < FirstPrivateTag || e.pds == pds)
  }

  /** QVector::resize: cut to `n` bytes, or extended with zero bytes. */
  function Resized(s: seq<byte>, n: nat): (r: seq<byte>)
    ensures |r| == n
  {
    if n <= |s| then s[..n] else s + seq(n - |s|, _ => 0)
  }

  /** Two patches that follow each other are one patch. */
  lemma PatchAppend(s: seq<byte>, a: int, w: seq<byte>, d: seq<byte>)
    requires 0 <= a && a + |w| + |d| <= |s|
    ensures Patch(Patch(s, a, w), a + |w|, d) == Patch(s, a, w + d)
  {
    PatchContents(s, a, w);
    PatchContents(Patch(s, a, w), a + |w|, d);
    PatchContents(s, a, w + d);
  }

  /** A patch in front of one made before is one patch too. */
  lemma PatchPrepend(s: seq<byte>, a: int, e: seq<byte>, w: seq<byte>)
    requires 0 <= a && a + |e| + |w| <= |s|
    ensures Patch(Patch(s, a + |e|, w), a, e) == Patch(s, a, e + w)
  {
    PatchContents(s, a + |e|, w);
    PatchContents(Patch(s, a + |e|, w), a, e);
    PatchContents(s, a, e + w);
  }

  // ---------------------------------------------------------------------
  // Reading descriptors from memory (append(addr, size))
  // ---------------------------------------------------------------------

  /** The bytes of a sequence of descriptors, one after the other. */
  function Concat(ds: seq<Descriptor>): seq<byte>
  {
    if |ds| == 0 then [] else ds[0].data + Concat(ds[1..])
  }

  /**
   * The descriptors read from `area`: while at least two bytes remain and the
   * length byte fits, a descriptor of length+2 bytes is taken; the bytes left
   * unread come second.
   */
  function Parse(area: seq<byte>): (r: (seq<Descriptor>, seq<byte>))
    decreases |area|
  {
    if |area| >= 2 && area[1] as int + 2 <= |area| then
      var length := area[1] as int + 2;
      var rest := Parse(area[length..]);
      ([Descriptor(area[..length])] + rest.0, rest.1)
    else ([], area)
  }

  /**
   * Parsing splits the area into well-formed descriptors and a remainder too
   * short to hold the next one; no byte is lost.
   */
  lemma {:induction false} ParseSplits(area: seq<byte>)
    ensures var r := Parse(area);
      Concat(r.0) + r.1 == area
      && (forall k :: 0 <= k < |r.0| ==> IsValid(r.0[k]))
      && (|r.1| < 2 || r.1[1] as int + 2 > |r.1|)
    decreases |area|
  {
    if |area| >= 2 && area[1] as int + 2 <= |area| {
      var length := area[1] as int + 2;
      ParseSplits(area[length..]);
      var r := Parse(area);
      assert r.0[1..] == Parse(area[length..]).0;
      assert area == area[..length] + area[length..];
    }
  }

  /** Reading back the bytes of well-formed descriptors gives the same descriptors and consumes every byte. */
  lemma {:induction false} ParseConcat(ds: seq<Descriptor>)
    requires forall k :: 0 <= k < |ds| ==> IsValid(ds[k])
    ensures Parse(Concat(ds)) == (ds, [])
  {
    if |ds| > 0 {
      var area := Concat(ds);
      var length := ds[0].data[1] as int + 2;
      assert area[..length] == ds[0].data;
      assert area[length..] == Concat(ds[1..]);
      ParseConcat(ds[1..]);
      assert ds == [ds[0]] + ds[1..];
    }
  }

  /** The concatenation of a sequence extended at the end. */
  lemma {:induction false} ConcatSnoc(ds: seq<Descriptor>, d: Descriptor)
    ensures Concat(ds + [d]) == Concat(ds) + d.data
  {
    if |ds| == 0 {
      assert ds + [d] == [d];
    } else {
      assert (ds + [d])[1..] == ds[1..] + [d];
      ConcatSnoc(ds[1..], d);
    }
  }

  /** The elements that appending the descriptors `ds` after `l` adds, each with its inherited specifier. */
  function AppendAll(l: seq<Element>, ds: seq<Descriptor>): (r: seq<Element>)
    ensures |r| == |l| + |ds| && r[..|l|] == l
    decreases |ds|
  {
    if |ds| == 0 then l else AppendAll(l + [Element(ds[0], NextPds(l, ds[0]))], ds[1..])
  }

  /** Appending descriptors one by one keeps the list consistent and adds exactly those descriptors. */
  lemma {:induction false} AppendAllInherits(l: seq<Element>, ds: seq<Descriptor>)
    requires Inherits(l)
    ensures Inherits(AppendAll(l, ds)) && Descs(AppendAll(l, ds)) == Descs(l) + ds
    decreases |ds|
  {
    if |ds| > 0 {
      var l1 := l + [Element(ds[0], NextPds(l, ds[0]))];
      AppendInherits(l, ds[0]);
      AppendAllInherits(l1, ds[1..]);
      assert Descs(l1) == Descs(l) + [ds[0]];
      assert ds == [ds[0]] + ds[1..];
    }
  }

  // ---------------------------------------------------------------------
  // Writing descriptors to memory (serialize)
  // ---------------------------------------------------------------------

  /**
   * The index serialize stops at: from `i` on, descriptors are written while
   * each fits in the room left.
   */
  function SerializeEnd(ds: seq<Descriptor>, i: nat, room: int): (r: nat)
    ensures i <= r && (i <= |ds| ==> r <= |ds|) && (i > |ds| ==> r == i)
    decreases |ds| - i
  {
    if i < |ds| && |ds[i].data| <= room then SerializeEnd(ds, i + 1, room - |ds[i].data|) else i
  }

  /** The bytes of descriptors i to j-1, nothing when the range is empty. */
  function Written(ds: seq<Descriptor>, i: int, j: int): seq<byte>
  {
    if 0 <= i < j <= |ds| then Concat(ds[i..j]) else []
  }

  lemma WrittenFront(ds: seq<Descriptor>, i: int, j: int)
    requires 0 <= i < j <= |ds|
    ensures Written(ds, i, j) == ds[i].data + Written(ds, i + 1, j)
  {
    var s := ds[i..j];
    assert s[0] == ds[i] && s[1..] == ds[i + 1..j];
    if i + 1 == j {
      assert s[1..] == [] && Concat(s[1..]) == [];
    }
  }

  lemma WrittenStep(ds: seq<Descriptor>, i: int, j: int)
    requires 0 <= i <= j < |ds|
    ensures Written(ds, i, j + 1) == Written(ds, i, j) + ds[j].data
  {
    assert ds[i..j + 1] == ds[i..j] + [ds[j]];
    ConcatSnoc(ds[i..j], ds[j]);
  }

  /**
   * serialize writes whole descriptors only, never more than the room, and
   * stops at the end of the list or at the first descriptor that does not fit
   * in the room left.
   */
  lemma {:induction false} SerializeEndBounds(ds: seq<Descriptor>, i: nat, room: int)
    requires i <= |ds|
    ensures var r := SerializeEnd(ds, i, room); var w := Written(ds, i, r);
      (r > i ==> |w| <= room)
      && (r == |ds| || |ds[r].data| > room - |w|)
    decreases |ds| - i
  {
    var r := SerializeEnd(ds, i, room);
    if i < |ds| && |ds[i].data| <= room {
      var room' := room - |ds[i].data|;
      SerializeEndBounds(ds, i + 1, room');
      WrittenFront(ds, i, r);
    }
  }

  /** Every descriptor from `i` on is written exactly when their bytes fit in the room. */
  lemma {:induction false} SerializeAllIff(ds: seq<Descriptor>, i: nat, room: int)
    requires i < |ds|
    ensures SerializeEnd(ds, i, room) == |ds| <==> |Written(ds, i, |ds|)| <= room
    decreases |ds| - i
  {
    WrittenFront(ds, i, |ds|);
    if i + 1 < |ds| {
      SerializeAllIff(ds, i + 1, room - |ds[i].data|);
    }
  }

  // ---------------------------------------------------------------------
  // The 2-byte length field (lengthSerialize / appendFromLength)
  // ---------------------------------------------------------------------

  /**
   * quint16(length | 0xF000): the four reserved bits set over the length, cut
   * to 16 bits; bits 12 to 15 are 1 and bits 0 to 11 are those of the length.
   */
  function LengthWord(length: nat): (r: nat)
    ensures r < Two16
  {
    0xF000 + length % 0x1000
  }

  /** The 12 significant bits of a length word (the mask 0x0FFF). */
  function ListLength(word: nat): (r: nat)
    ensures r < 0x1000
  {
    word % 0x1000
  }

  /** A length below 4096 survives the length word unchanged. */
  lemma LengthWordFields(length: nat)
    requires length < 0x1000
    ensures LengthWord(length) == 0xF000 + length
    ensures ListLength(LengthWord(length)) == length
  {
    assert length % 0x1000 == length;
    assert (0xF000 + length) % 0x1000 == length;
  }

  /** The length word in front of any bytes reads back as their length. */
  lemma LengthFieldReads(body: seq<byte>)
    requires |body| < 0x1000
    ensures var field := EncodeBE16(LengthWord(|body|)) + body;
      ListLength(BE16(field, 0)) == |body| && field[2..] == body
  {
    LengthWordFields(|body|);
    var e := EncodeBE16(LengthWord(|body|));
    var field := e + body;
    assert field[0] == e[0] && field[1] == e[1];
    assert BE16(field, 0) == BE16(e, 0);
  }

  /**
   * A list written with its length field reads back: the 12-bit length gives
   * the bytes of the descriptors, and parsing them gives the descriptors.
   */
  lemma {:induction false} LengthSerializeRoundTrip(ds: seq<Descriptor>)
    requires forall k :: 0 <= k < |ds| ==> IsValid(ds[k])
    requires |Concat(ds)| < 0x1000
    ensures var field := EncodeBE16(LengthWord(|Concat(ds)|)) + Concat(ds);
      var listSize := ListLength(BE16(field, 0));
      LengthWord(|Concat(ds)|) == 0xF000 + |Concat(ds)|
      && 2 + listSize <= |field| && Parse(field[2..2 + listSize]) == (ds, [])
  {
    var body := Concat(ds);
    LengthWordFields(|body|);
    LengthFieldReads(body);
    var field := EncodeBE16(LengthWord(|body|)) + body;
    assert field[2..2 + |body|] == body;
    ParseConcat(ds);
  }

  // ---------------------------------------------------------------------
  // Removal of a private_data_specifier descriptor (prepareRemovePds)
  // ---------------------------------------------------------------------

  /** The first private_data_specifier_descriptor after `index`, or the size of the list. */
  function NextPdsIndex(l: seq<Element>, from: int): (r: int)
    requires 0 <= from <= |l|
    ensures from <= r <= |l| && (r < |l| ==> Tag(l[r].desc) == PdsTag)
    ensures forall k :: from <= k < r ==> Tag(l[k].desc) != PdsTag
    decreases |l| - from
  {
    if from == |l| || Tag(l[from].desc) == PdsTag then from else NextPdsIndex(l, from + 1)
  }

  /**
   * The private_data_specifier_descriptor at `index` may go: no private
   * descriptor comes before the next private_data_specifier_descriptor.
   */
  predicate PdsRemovable(l: seq<Element>, index: int)
  {
    0 <= index < |l| && Tag(l[index].desc) == PdsTag
    && forall k :: index < k < NextPdsIndex(l, index + 1) ==> Tag(l[k].desc) < FirstPrivateTag
  }

  /** The specifier in force before `index`. */
  function PdsBefore(l: seq<Element>, index: int): nat
    requires 0 <= index < |l|
  {
    if index == 0 then 0 else l[index - 1].pds
  }

  /** The elements the removed descriptor covered take the specifier in force before it. */
  function Reassigned(l: seq<Element>, index: int): (r: seq<Element>)
    requires 0 <= index < |l|
    ensures |r| == |l| && Descs(r) == Descs(l)
  {
    var next := NextPdsIndex(l, index + 1);
    seq(|l|, k requires 0 <= k < |l| => if index < k < next then l[k].(pds := PdsBefore(l, index)) else l[k])
  }

  function RemoveAt<T>(s: seq<T>, index: int): (r: seq<T>)
    requires 0 <= index < |s|
    ensures |r| == |s| - 1
  {
    s[..index] + s[index + 1..]
  }

  /**
   * removeByIndex on a list: refused for an index out of range or for a
   * private_data_specifier_descriptor still needed; otherwise the element
   * goes, after the specifier it declared has been withdrawn from those it
   * covered.
   */
  function RemoveByIndex(l: seq<Element>, index: int): (r: (bool, seq<Element>))
  {
    if index < 0 || index >= |l| then (false, l)
    else if Tag(l[index].desc) != PdsTag then (true, RemoveAt(l, index))
    else if !PdsRemovable(l, index) then (false, l)
    else (true, RemoveAt(Reassigned(l, index), index))
  }

  /**
   * A removal keeps every other descriptor in order and keeps the list
   * consistent: each element still carries the specifier of the closest
   * private_data_specifier_descriptor before it.
   */
  lemma {:induction false} RemoveByIndexInherits(l: seq<Element>, index: int)
    requires Inherits(l)
    ensures var r := RemoveByIndex(l, index);
      Inherits(r.1)
      && (r.0 ==> 0 <= index < |l| && Descs(r.1) == RemoveAt(Descs(l), index))
      && (!r.0 ==> r.1 == l)
  {
    if 0 <= index < |l| {
      if Tag(l[index].desc) != PdsTag {
        RemovePlainInherits(l, index);
      } else if PdsRemovable(l, index) {
        RemovePdsInherits(l, index);
      }
    }
  }

  lemma {:induction false} RemovePlainInherits(l: seq<Element>, index: int)
    requires Inherits(l) && 0 <= index < |l| && Tag(l[index].desc) != PdsTag
    ensures Inherits(RemoveAt(l, index)) && Descs(RemoveAt(l, index)) == RemoveAt(Descs(l), index)
  {
    var r := RemoveAt(l, index);
    forall i | 0 <= i < |r|
      ensures r[i].pds == NextPds(r[..i], r[i].desc)
    {
      if i < index {
        assert r[i] == l[i] && r[..i] == l[..i];
      } else {
        assert r[i] == l[i + 1];
        assert l[i + 1].pds == NextPds(l[..i + 1], l[i + 1].desc);
        assert l[index].pds == NextPds(l[..index], l[index].desc);
        if i > index {
          assert r[i - 1] == l[i];
        }
      }
    }
  }

  lemma {:induction false} RemovePdsInherits(l: seq<Element>, index: int)
    requires Inherits(l) && PdsRemovable(l, index)
    ensures Inherits(RemoveAt(Reassigned(l, index), index))
    ensures Descs(RemoveAt(Reassigned(l, index), index)) == RemoveAt(Descs(l), index)
  {
    var r := RemoveAt(Reassigned(l, index), index);
    forall i | 0 <= i < |r|
      ensures r[i].pds == NextPds(r[..i], r[i].desc)
    {
      RemovePdsElement(l, index, i);
    }
    assert Descs(r) == RemoveAt(Descs(l), index);
  }

  /** One element of the list after the removal of a private_data_specifier_descriptor. */
  lemma RemovePdsElement(l: seq<Element>, index: int, i: int)
    requires Inherits(l) && 0 <= index < |l|
    requires 0 <= i < |l| - 1
    ensures var r := RemoveAt(Reassigned(l, index), index); r[i].pds == NextPds(r[..i], r[i].desc)
  {
    var next := NextPdsIndex(l, index + 1);
    if i < index {
      assert l[i].pds == NextPds(l[..i], l[i].desc);
      RemovePdsBefore(l, index, i);
    } else if i + 1 < next {
      RemovePdsCovered(l, index, i);
    } else {
      assert l[i + 1].pds == NextPds(l[..i + 1], l[i + 1].desc);
      RemovePdsAfter(l, index, i);
    }
  }

  lemma RemovePdsBefore(l: seq<Element>, index: int, i: int)
    requires 0 <= i < index < |l|
    requires l[i].pds == NextPds(l[..i], l[i].desc)
    ensures var r := RemoveAt(Reassigned(l, index), index); r[i].pds == NextPds(r[..i], r[i].desc)
  {
    var m := Reassigned(l, index);
    var r := RemoveAt(m, index);
    assert r[i] == l[i] && r[..i] == m[..i];
    assert m[..i] == l[..i];
  }

  lemma RemovePdsCovered(l: seq<Element>, index: int, i: int)
    requires 0 <= index <= i && i + 1 < |l| && i + 1 < NextPdsIndex(l, index + 1)
    ensures var r := RemoveAt(Reassigned(l, index), index); r[i].pds == NextPds(r[..i], r[i].desc)
  {
    var m := Reassigned(l, index);
    var r := RemoveAt(m, index);
    var prev := PdsBefore(l, index);
    assert r[i] == m[i + 1];
    assert Tag(l[i + 1].desc) != PdsTag && r[i].pds == prev;
    if i > index {
      assert r[i - 1] == m[i] && m[i].pds == prev;
    } else if i > 0 {
      assert r[i - 1] == l[i - 1];
    }
  }

  lemma RemovePdsAfter(l: seq<Element>, index: int, i: int)
    requires 0 <= index <= i && i + 1 < |l| && NextPdsIndex(l, index + 1) <= i + 1
    requires l[i + 1].pds == NextPds(l[..i + 1], l[i + 1].desc)
    ensures var r := RemoveAt(Reassigned(l, index), index); r[i].pds == NextPds(r[..i], r[i].desc)
  {
    var m := Reassigned(l, index);
    var r := RemoveAt(m, index);
    var k := i + 1;
    var next := NextPdsIndex(l, index + 1);
    RemoveAtAt(m, index, i);
    ReassignedAt(l, index, k);
    if k > next {
      RemoveAtAt(m, index, i - 1);
      ReassignedAt(l, index, k - 1);
    }
    InheritsMoved(l, k, r, i);
  }

  /**
   * An element that keeps its neighbour before it (or is a
   * private_data_specifier_descriptor) keeps the specifier it inherits.
   */
  lemma InheritsMoved(l: seq<Element>, k: int, r: seq<Element>, i: int)
    requires 0 <= k < |l| && 0 <= i < |r| && r[i] == l[k]
    requires Tag(l[k].desc) != PdsTag ==> 0 < i && 0 < k && r[i - 1] == l[k - 1]
    requires l[k].pds == NextPds(l[..k], l[k].desc)
    ensures r[i].pds == NextPds(r[..i], r[i].desc)
  {
    NextPdsOfPrefix(r, i, r[i].desc);
    NextPdsOfPrefix(l, k, l[k].desc);
  }

  /** The elements after the one removed move down by one. */
  lemma RemoveAtAt<T>(s: seq<T>, index: int, j: int)
    requires 0 <= index < |s| && 0 <= j < |s| - 1
    ensures RemoveAt(s, index)[j] == if j < index then s[j] else s[j + 1]
  {
  }

  /** Only the elements between `index` and the next private_data_specifier_descriptor are reassigned. */
  lemma ReassignedAt(l: seq<Element>, index: int, k: int)
    requires 0 <= index < |l| && 0 <= k < |l|
    ensures !(index < k < NextPdsIndex(l, index + 1)) ==> Reassigned(l, index)[k] == l[k]
  {
  }

  /** The specifier a descriptor gets when appended after the first i elements. */
  lemma NextPdsOfPrefix(l: seq<Element>, i: int, d: Descriptor)
    requires 0 <= i <= |l|
    ensures Tag(d) == PdsTag ==> NextPds(l[..i], d) == DeclaredPds(d)
    ensures Tag(d) != PdsTag && i == 0 ==> NextPds(l[..i], d) == 0
    ensures Tag(d) != PdsTag && i > 0 ==> NextPds(l[..i], d) == l[i - 1].pds
  {
  }

  /**
   * The loop of removeByTag from position `i`: a matching element goes (a
   * private_data_specifier_descriptor only when it may, its specifier first
   * withdrawn from those it covered) and the position stays; any other
   * element is kept and the position moves on. The number of removed
   * elements comes second.
   */
  function RemoveMatching(l: seq<Element>, i: nat, tag: byte, pds: nat): (r: (seq<Element>, nat))
    decreases |l| - i
  {
    if i >= |l| then (l, 0)
    else if Matches(l[i], tag, pds) && Tag(l[i].desc) != PdsTag then
      var rest := RemoveMatching(RemoveAt(l, i), i, tag, pds);
      (rest.0, rest.1 + 1)
    else if Matches(l[i], tag, pds) && PdsRemovable(l, i) then
      var rest := RemoveMatching(RemoveAt(Reassigned(l, i), i), i, tag, pds);
      (rest.0, rest.1 + 1)
    else RemoveMatching(l, i + 1, tag, pds)
  }

  /**
   * removeByTag counts what it removes, keeps the elements before the start,
   * keeps the list consistent, and leaves no matching descriptor behind but
   * private_data_specifier_descriptors still needed.
   */
  lemma {:induction false} RemoveMatchingSpec(l: seq<Element>, i: nat, tag: byte, pds: nat)
    requires i <= |l|
    ensures RemovedFrom(l, i, tag, pds, RemoveMatching(l, i, tag, pds))
    decreases |l| - i
  {
    if i < |l| {
      if Matches(l[i], tag, pds) && Tag(l[i].desc) != PdsTag {
        var l' := RemoveAt(l, i);
        RemoveMatchingSpec(l', i, tag, pds);
        assert l'[..i] == l[..i];
        if Inherits(l) {
          RemovePlainInherits(l, i);
        }
        DropOne(l, l', i, tag, pds, RemoveMatching(l', i, tag, pds));
      } else if Matches(l[i], tag, pds) && PdsRemovable(l, i) {
        var m := Reassigned(l, i);
        var l' := RemoveAt(m, i);
        RemoveMatchingSpec(l', i, tag, pds);
        assert l'[..i] == m[..i] == l[..i];
        if Inherits(l) {
          RemovePdsInherits(l, i);
        }
        DropOne(l, l', i, tag, pds, RemoveMatching(l', i, tag, pds));
      } else {
        RemoveMatchingSpec(l, i + 1, tag, pds);
        KeepOne(l, i, tag, pds, RemoveMatching(l, i + 1, tag, pds));
      }
    }
  }

  /**
   * What removing the matching descriptors from position `i` on leaves:
   * the removed count and the remaining list add up to the original, the
   * elements before `i` are kept, a consistent list stays consistent, and
   * from `i` on no matching descriptor is left but
   * private_data_specifier_descriptors still needed.
   */
  predicate RemovedFrom(l: seq<Element>, i: nat, tag: byte, pds: nat, r: (seq<Element>, nat))
  {
    |r.0| + r.1 == |l| && i <= |r.0| && r.0[..i] == l[..i]
    && (Inherits(l) ==> Inherits(r.0))
    && forall k :: i <= k < |r.0| ==> !Matches(r.0[k], tag, pds) || Tag(r.0[k].desc) == PdsTag
  }

  /** Removing the element at `i` and then the rest from `i` on removes one more. */
  lemma DropOne(l: seq<Element>, l': seq<Element>, i: nat, tag: byte, pds: nat, rest: (seq<Element>, nat))
    requires i < |l| && |l'| == |l| - 1 && l'[..i] == l[..i] && (Inherits(l) ==> Inherits(l'))
    requires RemovedFrom(l', i, tag, pds, rest)
    ensures RemovedFrom(l, i, tag, pds, (rest.0, rest.1 + 1))
  {
  }

  /** Keeping the element at `i`, which is not to be removed, and removing from `i + 1` on. */
  lemma KeepOne(l: seq<Element>, i: nat, tag: byte, pds: nat, rest: (seq<Element>, nat))
    requires i < |l| && (!Matches(l[i], tag, pds) || Tag(l[i].desc) == PdsTag)
    requires RemovedFrom(l, i + 1, tag, pds, rest)
    ensures RemovedFrom(l, i, tag, pds, rest)
  {
    assert rest.0[..i + 1][i] == l[..i + 1][i];
    assert rest.0[..i] == rest.0[..i + 1][..i];
    assert l[..i] == l[..i + 1][..i];
  }

  // ---------------------------------------------------------------------
  // removeInvalidPrivateDescriptors
  // ---------------------------------------------------------------------

  /** A private descriptor outside any private data specifier. */
  predicate Orphan(e: Element)
  {
    e.pds == 0 && IsValid(e.desc) && Tag(e.desc) >= FirstPrivateTag
  }

  /**
   * The loop of removeInvalidPrivateDescriptors as written, from position
   * `n`: an orphan is removed and the position still moves on, so the
   * element that slides into its place is not examined.
   */
  function SweepAsWritten(l: seq<Element>, n: nat): (r: (seq<Element>, nat))
    decreases |l| - n
  {
    if n >= |l| then (l, 0)
    else if Orphan(l[n]) then
      var rest := SweepAsWritten(RemoveAt(l, n), n + 1);
      (rest.0, rest.1 + 1)
    else SweepAsWritten(l, n + 1)
  }

  /** The list without its orphans, the others in order. */
  function WithoutOrphans(l: seq<Element>): (r: seq<Element>)
    ensures |r| <= |l|
  {
    if |l| == 0 then [] else (if Orphan(l[0]) then [] else [l[0]]) + WithoutOrphans(l[1..])
  }

  /** No orphan is left, and every other element is kept. */
  lemma {:induction false} WithoutOrphansSpec(l: seq<Element>)
    ensures forall k :: 0 <= k < |WithoutOrphans(l)| ==> !Orphan(WithoutOrphans(l)[k])
    ensures forall e :: e in l && !Orphan(e) ==> e in WithoutOrphans(l)
  {
    if |l| > 0 {
      WithoutOrphansSpec(l[1..]);
      assert forall e :: e in l ==> e == l[0] || e in l[1..];
    }
  }

  /** Two orphans in a row: the loop as written leaves the second in the list. */
  lemma SweepSkipsSecondOrphan()
    ensures var a := Element(Descriptor([0x80, 0]), 0);
      var b := Element(Descriptor([0x81, 0]), 0);
      SweepAsWritten([a, b], 0) == ([b], 1) && Orphan(b) && WithoutOrphans([a, b]) == []
  {
    var a := Element(Descriptor([0x80, 0]), 0);
    var b := Element(Descriptor([0x81, 0]), 0);
    assert RemoveAt([a, b], 0) == [b];
    assert [a, b][1..] == [b];
  }

  /**
   * serialize(ByteBlock) as written resizes the block by the room left
   * instead of the bytes written: one 6-byte descriptor into an empty block
   * of at most 10 bytes leaves a block of 4 bytes, the descriptor cut short.
   */
  lemma SerializeBlockTruncates()
    ensures var ds := [Descriptor([0x0A, 4, 1, 2, 3, 4])];
      var w := Written(ds, 0, SerializeEnd(ds, 0, 10));
      w == ds[0].data && Resized([] + w, 10 - |w|) == [0x0A, 4, 1, 2]
  {
    var ds := [Descriptor([0x0A, 4, 1, 2, 3, 4])];
    assert SerializeEnd(ds, 1, 4) == 1;
    assert SerializeEnd(ds, 0, 10) == 1;
    assert ds[0..1] == ds && ds[1..] == [];
    assert Concat(ds) == ds[0].data + Concat([]);
  }
}
