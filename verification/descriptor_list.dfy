/**
 * The QtsDescriptorList object: a list of descriptors, each with the private
 * data specifier in force for it. Descriptors are appended one by one or read
 * from memory, removed under the private data specifier rules, searched and
 * written back to memory. Each operation is specified by the functions of
 * module Descriptors.
 */
module DescriptorLists {
  import opened Bytes
  import opened Descriptors

  /** memcpy: the bytes land at `addr`, nothing else changes. */
  method CopyBytes(buf: array<byte>, addr: int, bytes: seq<byte>)
    requires 0 <= addr && addr + |bytes| <= buf.Length
    modifies buf
    ensures buf[..] == Patch(old(buf[..]), addr, bytes)
  {
    forall k | addr <= k < addr + |bytes| {
      buf[k] := bytes[k - addr];
    }
    PatchContents(old(buf[..]), addr, bytes);
    assert buf[..] == Patch(old(buf[..]), addr, bytes);
  }

  class DescriptorList {
    var list: seq<Element>

    /** An empty list. */
    constructor()
      ensures list == []
    {
      list := [];
    }

    /** clear(): the list becomes empty. */
    method Clear()
      modifies this
      ensures list == []
    {
      list := [];
    }

    /**
     * append(desc): a null or invalid descriptor is refused and the list is
     * unchanged; otherwise the descriptor goes at the end with the specifier
     * it declares, or the one of the last element, or 0.
     */
    method Append(desc: Option<Descriptor>) returns (ok: bool)
      modifies this
      ensures ok <==> desc.Some? && IsValid(desc.value)
      ensures ok ==> list == old(list) + [Element(desc.value, NextPds(old(list), desc.value))]
      ensures !ok ==> list == old(list)
    {
      if desc.None? || !IsValid(desc.value) {
        return false;
      }
      var d := desc.value;
      var pds: nat;
      if Tag(d) == PdsTag {
        pds := if PayloadSize(d) < 4 then 0 else BE32(d.data, 2);
      } else if |list| == 0 {
        pds := 0;
      } else {
        pds := list[|list| - 1].pds;
      }
      list := list + [Element(d, pds)];
      ok := true;
    }

    /** append(list): the elements of `other` follow, with the specifiers they had there. */
    method AppendList(other: DescriptorList)
      modifies this
      ensures list == old(list) + old(other.list)
    {
      list := list + other.list;
    }

    /**
     * append(addr, size): descriptors are read from the `size` bytes at
     * `addr` while a whole one remains; it succeeds exactly when no byte is
     * left over.
     */
    method AppendArea(mem: seq<byte>, addr: int, size: int) returns (ok: bool)
      requires 0 <= addr <= |mem| && size <= |mem| - addr
      modifies this
      ensures size < 0 ==> !ok && list == old(list)
      ensures size >= 0 ==> var p := Parse(mem[addr..addr + size]);
        ok == (p.1 == []) && list == AppendAll(old(list), p.0)
    {
      if size < 0 {
        return false;
      }
      var pos, left := addr, size;
      ghost var read: seq<Descriptor> := [];
      ghost var p := Parse(mem[addr..addr + size]);
      ghost var rest := p;
      assert read + rest.0 == rest.0;
      while left >= 2 && mem[pos + 1] as int + 2 <= left
        invariant addr <= pos && 0 <= left && pos + left == addr + size
        invariant rest == Parse(mem[pos..pos + left]) && p == (read + rest.0, rest.1)
        invariant list == AppendAll(old(list), read)
        decreases left
      {
        var length := mem[pos + 1] as int + 2;
        var d := Descriptor(mem[pos..pos + length]);
        ParseLoopStep(mem, pos, left, length, d, rest, read, old(list));
        ghost var next := Parse(mem[pos + length..pos + left]);
        ghost var before := list;
        var appended := Append(Some(d));
        assert appended && list == before + [Element(d, NextPds(before, d))];
        read, rest := read + [d], next;
        pos, left := pos + length, left - length;
      }
      ParseLoopEnd(mem, pos, left, rest);
      assert read + [] == read;
      ok := left == 0;
    }

    /** append(addr): the one descriptor at `addr`, its size taken from its length byte. */
    method AppendOne(mem: seq<byte>, addr: int) returns (ok: bool)
      requires 0 <= addr && addr + 2 <= |mem| && addr + mem[addr + 1] as int + 2 <= |mem|
      modifies this
      ensures var d := Descriptor(mem[addr..addr + mem[addr + 1] as int + 2]);
        ok && list == old(list) + [Element(d, NextPds(old(list), d))]
    {
      var length := mem[addr + 1] as int + 2;
      var d := Descriptor(mem[addr..addr + length]);
      ParseStep(mem, addr, length);
      assert mem[addr + length..addr + length] == [];
      assert [d][1..] == [];
      ok := AppendArea(mem, addr, length);
    }

    /**
     * appendFromLength: a 2-byte length field (12 significant bits) then
     * that many bytes of descriptors. Refused, with nothing consumed, when
     * the field or the list it announces does not fit; otherwise the
     * position moves past the list whatever its content.
     */
    method AppendFromLength(mem: seq<byte>, addr: int, size: int) returns (ok: bool, newAddr: int, newSize: int)
      requires 0 <= addr <= |mem| && size <= |mem| - addr
      modifies this
      ensures size < 2 || 2 + ListLength(BE16(mem, addr)) > size ==>
        !ok && list == old(list) && newAddr == addr && newSize == size
      ensures size >= 2 && 2 + ListLength(BE16(mem, addr)) <= size ==>
        var listSize := ListLength(BE16(mem, addr));
        var p := Parse(mem[addr + 2..addr + 2 + listSize]);
        newAddr == addr + 2 + listSize && newSize == size - 2 - listSize
        && ok == (p.1 == []) && list == AppendAll(old(list), p.0)
    {
      if size < 2 {
        return false, addr, size;
      }
      var listSize := ListLength(BE16(mem, addr));
      if 2 + listSize > size {
        return false, addr, size;
      }
      var listAddr := addr + 2;
      newAddr := addr + 2 + listSize;
      newSize := size - 2 - listSize;
      ok := AppendArea(mem, listAddr, listSize);
    }

    /**
     * appendPrivateDataSpecifier: a private_data_specifier_descriptor for
     * `pds` goes at the end unless `pds` is 0 or already in force there.
     */
    method AppendPrivateDataSpecifier(pds: nat)
      requires pds < Two32
      modifies this
      ensures pds != 0 && (|old(list)| == 0 || old(list)[|old(list)| - 1].pds != pds) ==>
        list == old(list) + [Element(PdsDescriptor(pds), pds)]
      ensures pds == 0 || (|old(list)| > 0 && old(list)[|old(list)| - 1].pds == pds) ==> list == old(list)
      ensures pds != 0 ==> |list| > 0 && list[|list| - 1].pds == pds
    {
      if pds != 0 && (|list| == 0 || list[|list| - 1].pds != pds) {
        var appended := Append(Some(PdsDescriptor(pds)));
      }
    }

    /**
     * removeInvalidPrivateDescriptors as written: the position moves on after
     * a removal too, so the element that took the removed one's place is
     * never examined.
     */
    method RemoveInvalidPrivateDescriptorsAsWritten() returns (count: int)
      modifies this
      ensures (list, count) == SweepAsWritten(old(list), 0)
    {
      var l := list;
      count := 0;
      var n := 0;
      while n < |l|
        invariant 0 <= n && 0 <= count
        invariant SweepAsWritten(old(list), 0) == (SweepAsWritten(l, n).0, count + SweepAsWritten(l, n).1)
        decreases |l| - n
      {
        if Orphan(l[n]) {
          l := RemoveAt(l, n);
          count := count + 1;
        }
        n := n + 1;
      }
      list := l;
    }

    /**
     * removeInvalidPrivateDescriptors: every private descriptor outside a
     * private data specifier goes, the others stay in order, and the count
     * is the number removed.
     */
    method RemoveInvalidPrivateDescriptors() returns (count: int)
      modifies this
      ensures list == WithoutOrphans(old(list)) && count == |old(list)| - |list|
      ensures Inherits(old(list)) ==> Inherits(list)
    {
      var l := list;
      count := 0;
      var n := 0;
      while n < |l|
        invariant 0 <= n <= |l|
        invariant l[..n] + WithoutOrphans(l[n..]) == WithoutOrphans(old(list))
        invariant count == |old(list)| - |l|
        invariant Inherits(old(list)) ==> Inherits(l)
        decreases |l| - n
      {
        WithoutOrphansStep(l, n);
        if Orphan(l[n]) {
          if Inherits(l) {
            RemovePlainInherits(l, n);
          }
          l := RemoveAt(l, n);
          count := count + 1;
        } else {
          n := n + 1;
        }
      }
      assert l[..n] == l && l[n..] == [];
      list := l;
    }

    /**
     * prepareRemovePds: a private_data_specifier_descriptor may go only when
     * no private descriptor comes before the next one; the elements it
     * covered then take the specifier in force before it.
     */
    method PrepareRemovePds(index: int) returns (ok: bool)
      modifies this
      ensures ok == PdsRemovable(old(list), index)
      ensures ok ==> list == Reassigned(old(list), index)
      ensures !ok ==> list == old(list)
    {
      if index < 0 || index >= |list| || Tag(list[index].desc) != PdsTag {
        return false;
      }
      var next := NextPdsIndex(list, index + 1);
      var end := index + 1;
      while end < |list|
        invariant index + 1 <= end <= next
        invariant forall k :: index < k < end ==> Tag(list[k].desc) < FirstPrivateTag
      {
        var tag := Tag(list[end].desc);
        if tag >= FirstPrivateTag {
          return false;
        }
        if tag == PdsTag {
          break;
        }
        end := end + 1;
      }
      assert end == next;
      var previousPds := if index == 0 then 0 else list[index - 1].pds;
      var slots := list;
      end := end - 1;
      while end > index
        invariant index <= end < next && |slots| == |list|
        invariant forall k :: 0 <= k < |list| ==>
          slots[k] == if end < k < next then list[k].(pds := previousPds) else list[k]
      {
        slots := slots[end := slots[end].(pds := previousPds)];
        end := end - 1;
      }
      list := slots;
      ok := true;
    }

    /**
     * removeByIndex: refused for an index out of range or a
     * private_data_specifier_descriptor still needed; otherwise the element
     * goes.
     */
    method RemoveByIndex(index: int) returns (ok: bool)
      modifies this
      ensures (ok, list) == Descriptors.RemoveByIndex(old(list), index)
      ensures Inherits(old(list)) ==> Inherits(list)
    {
      if index < 0 || index >= |list| {
        return false;
      }
      if Inherits(list) {
        RemoveByIndexInherits(list, index);
      }
      if Tag(list[index].desc) == PdsTag {
        var prepared := PrepareRemovePds(index);
        if !prepared {
          return false;
        }
      }
      list := RemoveAt(list, index);
      ok := true;
    }

    /**
     * removeByTag: every descriptor with the tag (and, for a private tag
     * searched under a specifier, that specifier) goes, but
     * private_data_specifier_descriptors still needed.
     */
    method RemoveByTag(tag: byte, pds: nat) returns (removedCount: int)
      modifies this
      ensures (list, removedCount) == RemoveMatching(old(list), 0, tag, pds)
    {
      var checkPds := pds != 0 && tag >= FirstPrivateTag;
      removedCount := 0;
      var i := 0;
      while i < |list|
        invariant 0 <= i && 0 <= removedCount
        invariant RemoveMatching(old(list), 0, tag, pds)
          == (RemoveMatching(list, i, tag, pds).0, removedCount + RemoveMatching(list, i, tag, pds).1)
        decreases |list| - i
      {
        var itag := Tag(list[i].desc);
        var remove := false;
        if itag == tag && (!checkPds || list[i].pds == pds) {
          if itag != PdsTag {
            remove := true;
          } else {
            remove := PrepareRemovePds(i);
          }
        }
        if remove {
          list := RemoveAt(list, i);
          removedCount := removedCount + 1;
        } else {
          i := i + 1;
        }
      }
    }

    /**
     * search: the first element at or after `startIndex` with the tag (and,
     * for a private tag searched under a specifier, that specifier); the
     * size of the list when there is none.
     */
    method Search(tag: byte, startIndex: int, pds: nat) returns (index: int)
      requires 0 <= startIndex
      ensures startIndex <= index
      ensures index < |list| ==> Matches(list[index], tag, pds)
      ensures index >= |list| ==> index == if startIndex > |list| then startIndex else |list|
      ensures forall k :: startIndex <= k < index && k < |list| ==> !Matches(list[k], tag, pds)
    {
      var checkPds := pds != 0 && tag >= FirstPrivateTag;
      index := startIndex;
      while index < |list| && (Tag(list[index].desc) != tag || (checkPds && list[index].pds != pds))
        invariant startIndex <= index
        invariant index > |list| ==> index == startIndex
        invariant forall k :: startIndex <= k < index && k < |list| ==> !Matches(list[k], tag, pds)
        decreases |list| - index
      {
        index := index + 1;
      }
    }

    /** binarySize: the bytes of all the descriptors, one after the other. */
    method BinarySize() returns (size: int)
      ensures size == |Concat(Descs(list))|
    {
      var ds := Descs(list);
      size := 0;
      var i := 0;
      while i < |list|
        invariant 0 <= i <= |list| && size == |Concat(ds[..i])|
      {
        ConcatSnoc(ds[..i], ds[i]);
        assert ds[..i + 1] == ds[..i] + [ds[i]];
        size := size + |list[i].desc.data|;
        i := i + 1;
      }
      assert ds[..i] == ds;
    }

    /**
     * serialize(addr, size, startIndex): whole descriptors from `startIndex`
     * on are copied to `addr` while each fits in the room left; the position
     * and the room move past them and the index of the first descriptor not
     * written comes back.
     */
    method Serialize(buf: array<byte>, addr: int, size: int, startIndex: int) returns (next: int, newAddr: int, newSize: int)
      requires 0 <= startIndex && 0 <= addr && 0 <= size && addr + size <= buf.Length
      modifies buf
      ensures var ds := Descs(list); var w := Written(ds, startIndex, next);
        next == SerializeEnd(ds, startIndex, size)
        && |w| <= size && newAddr == addr + |w| && newSize == size - |w|
        && buf[..] == Patch(old(buf[..]), addr, w)
    {
      next, newAddr, newSize := SerializeRun(Descs(list), buf, addr, size, startIndex);
    }

    /**
     * lengthSerialize(addr, size, startIndex): nothing when fewer than 2
     * bytes are free; otherwise the descriptors as serialize writes them,
     * after a 2-byte field holding 0xF000 | their length.
     */
    method LengthSerialize(buf: array<byte>, addr: int, size: int, startIndex: int) returns (next: int, newAddr: int, newSize: int)
      requires 0 <= startIndex && 0 <= addr && 0 <= size && addr + size <= buf.Length
      modifies buf
      ensures size < 2 ==> next == startIndex && newAddr == addr && newSize == size && buf[..] == old(buf[..])
      ensures size >= 2 ==> var ds := Descs(list); var w := Written(ds, startIndex, next);
        next == SerializeEnd(ds, startIndex, size - 2)
        && 2 + |w| <= size && newAddr == addr + 2 + |w| && newSize == size - 2 - |w|
        && buf[..] == Patch(old(buf[..]), addr, EncodeBE16(LengthWord(|w|)) + w)
    {
      if size < 2 {
        return startIndex, addr, size;
      }
      var lengthAddr := addr;
      next, newAddr, newSize := Serialize(buf, addr + 2, size - 2, startIndex);
      var length := newAddr - lengthAddr - 2;
      ghost var w := Written(Descs(list), startIndex, next);
      PatchPrepend(old(buf[..]), addr, EncodeBE16(LengthWord(length)), w);
      CopyBytes(buf, lengthAddr, EncodeBE16(LengthWord(length)));
    }

    /**
     * serialize(ByteBlock, maxDataSize, startIndex) as written: the block is
     * enlarged to maxDataSize, the descriptors go after the old content, and
     * the block is cut to the old size plus the room LEFT, not the bytes
     * written.
     */
    method SerializeToBlockAsWritten(data: seq<byte>, maxDataSize: int, startIndex: int) returns (next: int, block: seq<byte>)
      requires 0 <= startIndex
      ensures |data| >= maxDataSize ==> next == startIndex && block == data
      ensures |data| < maxDataSize ==> var ds := Descs(list); var w := Written(ds, startIndex, next);
        next == SerializeEnd(ds, startIndex, maxDataSize - |data|) && |data| + |w| <= maxDataSize
        && block == Resized(data + w, maxDataSize - |w|)
    {
      var oldSize := |data|;
      if oldSize >= maxDataSize {
        return startIndex, data;
      }
      var buf := NewBlock(data, maxDataSize);
      var newAddr, newSize;
      next, newAddr, newSize := Serialize(buf, oldSize, maxDataSize - oldSize, startIndex);
      block := buf[..oldSize + newSize];
      ghost var w := Written(Descs(list), startIndex, next);
      BlockContents(data, maxDataSize, w, oldSize + newSize);
    }

    /**
     * serialize(ByteBlock, maxDataSize, startIndex): nothing when the block
     * already holds maxDataSize bytes; otherwise the descriptors that fit in
     * the room up to maxDataSize follow the old content.
     */
    method SerializeToBlock(data: seq<byte>, maxDataSize: int, startIndex: int) returns (next: int, block: seq<byte>)
      requires 0 <= startIndex
      ensures |data| >= maxDataSize ==> next == startIndex && block == data
      ensures |data| < maxDataSize ==> var ds := Descs(list); var w := Written(ds, startIndex, next);
        next == SerializeEnd(ds, startIndex, maxDataSize - |data|) && block == data + w
    {
      var oldSize := |data|;
      if oldSize >= maxDataSize {
        return startIndex, data;
      }
      var buf := NewBlock(data, maxDataSize);
      var newAddr, newSize;
      next, newAddr, newSize := Serialize(buf, oldSize, maxDataSize - oldSize, startIndex);
      block := buf[..newAddr];
      ghost var w := Written(Descs(list), startIndex, next);
      BlockContents(data, maxDataSize, w, newAddr);
    }

    /**
     * lengthSerialize(ByteBlock, maxDataSize, startIndex) as written: like
     * serialize(ByteBlock), the block is cut to the old size plus the room
     * left after the length field and the descriptors.
     */
    method LengthSerializeToBlockAsWritten(data: seq<byte>, maxDataSize: int, startIndex: int) returns (next: int, block: seq<byte>)
      requires 0 <= startIndex
      ensures |data| + 2 >= maxDataSize ==> next == startIndex && block == data
      ensures |data| + 2 < maxDataSize ==> LengthBlockAsWritten(Descs(list), data, maxDataSize, startIndex, next, block)
    {
      var oldSize := |data|;
      if oldSize + 2 >= maxDataSize {
        return startIndex, data;
      }
      var buf := NewBlock(data, maxDataSize);
      ghost var before := buf[..];
      ghost var ds := Descs(list);
      var newAddr, newSize;
      next, newAddr, newSize := LengthSerialize(buf, oldSize, maxDataSize - oldSize, startIndex);
      LengthBlockAsWrittenCut(ds, data, maxDataSize, startIndex, next, before, buf[..], newSize);
      block := buf[..oldSize + newSize];
    }

    /**
     * lengthSerialize(ByteBlock, maxDataSize, startIndex): nothing unless
     * more than the 2-byte length field fits below maxDataSize; otherwise
     * the length field and the descriptors that fit follow the old content.
     */
    method LengthSerializeToBlock(data: seq<byte>, maxDataSize: int, startIndex: int) returns (next: int, block: seq<byte>)
      requires 0 <= startIndex
      ensures |data| + 2 >= maxDataSize ==> next == startIndex && block == data
      ensures |data| + 2 < maxDataSize ==> var ds := Descs(list); var w := Written(ds, startIndex, next);
        next == SerializeEnd(ds, startIndex, maxDataSize - |data| - 2)
        && block == data + EncodeBE16(LengthWord(|w|)) + w
    {
      var oldSize := |data|;
      if oldSize + 2 >= maxDataSize {
        return startIndex, data;
      }
      var buf := NewBlock(data, maxDataSize);
      ghost var before := buf[..];
      ghost var ds := Descs(list);
      var newAddr, newSize;
      next, newAddr, newSize := LengthSerialize(buf, oldSize, maxDataSize - oldSize, startIndex);
      ghost var w := Written(ds, startIndex, next);
      block := buf[..newAddr];
      LengthBlockContents(data, maxDataSize, EncodeBE16(LengthWord(|w|)), w, newAddr);
    }
  }

  /**
   * The loop of serialize(addr, size, startIndex) over the descriptors
   * `ds`: each is copied while it fits in the room left.
   */
  method SerializeRun(ds: seq<Descriptor>, buf: array<byte>, addr: int, size: int, startIndex: int)
    returns (next: int, newAddr: int, newSize: int)
    requires 0 <= startIndex && 0 <= addr && 0 <= size && addr + size <= buf.Length
    modifies buf
    ensures var w := Written(ds, startIndex, next);
      next == SerializeEnd(ds, startIndex, size)
      && |w| <= size && newAddr == addr + |w| && newSize == size - |w|
      && buf[..] == Patch(old(buf[..]), addr, w)
  {
    ghost var original := buf[..];
    ghost var w: seq<byte> := [];
    next, newAddr, newSize := startIndex, addr, size;
    while next < |ds| && |ds[next].data| <= newSize
      invariant startIndex <= next && (next == startIndex || next <= |ds|)
      invariant w == Written(ds, startIndex, next)
      invariant SerializeEnd(ds, startIndex, size) == SerializeEnd(ds, next, newSize)
      invariant newAddr == addr + |w| && newSize == size - |w| && 0 <= newSize
      invariant buf[..] == Patch(original, addr, w)
      decreases |ds| - next
    {
      var d := ds[next].data;
      CopyNext(ds, buf, original, addr, size, startIndex, next, newAddr, newSize);
      w := w + d;
      newAddr := newAddr + |d|;
      newSize := newSize - |d|;
      next := next + 1;
    }
  }

  /** One turn of the serialize loop: the next descriptor, which fits, goes after those written. */
  method CopyNext(ds: seq<Descriptor>, buf: array<byte>, ghost original: seq<byte>, addr: int, size: int, startIndex: nat,
                  next: int, newAddr: int, newSize: int)
    requires startIndex <= next < |ds| && |ds[next].data| <= newSize
    requires 0 <= addr && addr + size <= buf.Length == |original|
    requires SerializeEnd(ds, startIndex, size) == SerializeEnd(ds, next, newSize)
    requires newAddr == addr + |Written(ds, startIndex, next)| && newSize == size - |Written(ds, startIndex, next)|
    requires buf[..] == Patch(original, addr, Written(ds, startIndex, next))
    modifies buf
    ensures var d := ds[next].data; var w := Written(ds, startIndex, next + 1);
      w == Written(ds, startIndex, next) + d
      && SerializeEnd(ds, startIndex, size) == SerializeEnd(ds, next + 1, newSize - |d|)
      && newSize - |d| == size - |w| && buf[..] == Patch(original, addr, w)
  {
    var d := ds[next].data;
    SerializeStep(ds, startIndex, next, size, newSize);
    PatchAppend(original, addr, Written(ds, startIndex, next), d);
    CopyBytes(buf, newAddr, d);
  }

  /** QVector::resize to `max` bytes: the content, then zero bytes. */
  method NewBlock(data: seq<byte>, max: int) returns (buf: array<byte>)
    requires |data| < max
    ensures fresh(buf) && buf[..] == data + seq(max - |data|, _ => 0)
  {
    buf := new byte[max](k => if 0 <= k < |data| then data[k] else 0);
    assert buf[..] == data + seq(max - |data|, _ => 0);
  }

  /** One step of the parse loop: the descriptor at `pos` and the parse of what follows it. */
  lemma ParseStep(mem: seq<byte>, pos: int, left: int)
    requires 0 <= pos && 2 <= left && pos + left <= |mem| && mem[pos + 1] as int + 2 <= left
    ensures var length := mem[pos + 1] as int + 2;
      var rest := Parse(mem[pos + length..pos + left]);
      Parse(mem[pos..pos + left]).0 == [Descriptor(mem[pos..pos + length])] + rest.0
      && Parse(mem[pos..pos + left]).1 == rest.1
  {
    var area := mem[pos..pos + left];
    var length := mem[pos + 1] as int + 2;
    assert area[1] == mem[pos + 1];
    assert area[..length] == mem[pos..pos + length];
    assert area[length..] == mem[pos + length..pos + left];
  }

  /** One step of the removal loop: an orphan at `n` goes, any other element joins the part kept. */
  lemma WithoutOrphansStep(l: seq<Element>, n: int)
    requires 0 <= n < |l|
    ensures Orphan(l[n]) ==> RemoveAt(l, n)[..n] + WithoutOrphans(RemoveAt(l, n)[n..]) == l[..n] + WithoutOrphans(l[n..])
    ensures !Orphan(l[n]) ==> l[..n + 1] + WithoutOrphans(l[n + 1..]) == l[..n] + WithoutOrphans(l[n..])
  {
    assert l[n..][0] == l[n] && l[n..][1..] == l[n + 1..];
    if Orphan(l[n]) {
      assert RemoveAt(l, n)[..n] == l[..n] && RemoveAt(l, n)[n..] == l[n + 1..];
    } else {
      assert l[..n + 1] == l[..n] + [l[n]];
    }
  }

  /**
   * One turn of the parse loop: the descriptor at `pos` is valid, the parse
   * of the bytes left is that descriptor then the parse after it, and the
   * list grows by it.
   */
  lemma ParseLoopStep(mem: seq<byte>, pos: int, left: int, length: int, d: Descriptor, rest: (seq<Descriptor>, seq<byte>),
                      read: seq<Descriptor>, l0: seq<Element>)
    requires 0 <= pos && 2 <= left && pos + left <= |mem| && mem[pos + 1] as int + 2 <= left
    requires length == mem[pos + 1] as int + 2 && d == Descriptor(mem[pos..pos + length])
    requires rest == Parse(mem[pos..pos + left])
    ensures IsValid(d)
    ensures var next := Parse(mem[pos + length..pos + left]);
      next == Parse(mem[pos + length..(pos + length) + (left - length)])
      && read + rest.0 == (read + [d]) + next.0 && rest.1 == next.1
    ensures AppendAll(l0, read + [d]) == AppendAll(l0, read) + [Element(d, NextPds(AppendAll(l0, read), d))]
  {
    ParseStep(mem, pos, left);
    var next := Parse(mem[pos + length..pos + left]);
    assert rest.0 == [d] + next.0;
    assert read + ([d] + next.0) == (read + [d]) + next.0;
    AppendAllSnoc(l0, read, d);
  }

  /** One turn of the serialize loop: the next descriptor fits, is written, and the room shrinks by its size. */
  lemma SerializeStep(ds: seq<Descriptor>, startIndex: nat, next: int, size: int, newSize: int)
    requires startIndex <= next < |ds| && |ds[next].data| <= newSize
    requires SerializeEnd(ds, startIndex, size) == SerializeEnd(ds, next, newSize)
    requires newSize == size - |Written(ds, startIndex, next)|
    ensures Written(ds, startIndex, next + 1) == Written(ds, startIndex, next) + ds[next].data
    ensures SerializeEnd(ds, startIndex, size) == SerializeEnd(ds, next + 1, newSize - |ds[next].data|)
    ensures newSize - |ds[next].data| == size - |Written(ds, startIndex, next + 1)|
  {
    WrittenStep(ds, startIndex, next);
  }

  /** When the parse loop stops, everything was read and the bytes left are the remainder. */
  lemma ParseLoopEnd(mem: seq<byte>, pos: int, left: int, rest: (seq<Descriptor>, seq<byte>))
    requires 0 <= pos && 0 <= left && pos + left <= |mem|
    requires !(left >= 2 && mem[pos + 1] as int + 2 <= left)
    requires rest == Parse(mem[pos..pos + left])
    ensures rest.0 == [] && (rest.1 == [] <==> left == 0)
  {
    ParseStop(mem, pos, left);
  }

  /** Where the parse loop stops, nothing more is read and every byte left over is the remainder. */
  lemma ParseStop(mem: seq<byte>, pos: int, left: int)
    requires 0 <= pos && 0 <= left && pos + left <= |mem|
    requires !(left >= 2 && mem[pos + 1] as int + 2 <= left)
    ensures Parse(mem[pos..pos + left]) == ([], mem[pos..pos + left])
  {
    if left >= 2 {
      assert mem[pos..pos + left][1] == mem[pos + 1];
    }
  }

  /**
   * The block after a write of `w` behind `data` in a zero-filled buffer of
   * `max` bytes: its first |data| + |w| bytes are data + w, and cutting it
   * anywhere gives the same bytes as resizing data + w.
   */
  lemma BlockContents(data: seq<byte>, max: int, w: seq<byte>, n: int)
    requires |data| + |w| <= max && 0 <= n <= max
    ensures var b := Patch(data + seq(max - |data|, _ => 0), |data|, w);
      b[..|data| + |w|] == data + w && b[..n] == Resized(data + w, n)
  {
    var b := Patch(data + seq(max - |data|, _ => 0), |data|, w);
    assert b == data + w + seq(max - |data| - |w|, _ => 0);
  }

  /** The same, for a length field `f` written before the descriptors `w`. */
  lemma LengthBlockContents(data: seq<byte>, max: int, f: seq<byte>, w: seq<byte>, n: int)
    requires |data| + |f| + |w| <= max && 0 <= n <= max
    ensures var b := Patch(data + seq(max - |data|, _ => 0), |data|, f + w);
      b[..|data| + |f| + |w|] == data + f + w && b[..n] == Resized(data + f + w, n)
  {
    BlockContents(data, max, f + w, n);
    assert data + (f + w) == data + f + w;
  }

  /**
   * What lengthSerialize(ByteBlock, maxDataSize, startIndex) as written
   * returns when the length field fits: the descriptors from startIndex that
   * fit after it, and the block cut to the old size plus the room left.
   */
  ghost predicate LengthBlockAsWritten(ds: seq<Descriptor>, data: seq<byte>, maxDataSize: int, startIndex: nat, next: int,
                                       block: seq<byte>)
  {
    var w := Written(ds, startIndex, next);
    next == SerializeEnd(ds, startIndex, maxDataSize - |data| - 2) && |data| + 2 + |w| <= maxDataSize
    && block == Resized(data + EncodeBE16(LengthWord(|w|)) + w, maxDataSize - 2 - |w|)
  }

  /** The buffer after the length field and the descriptors went in, cut at the room left, is that block. */
  lemma LengthBlockAsWrittenCut(ds: seq<Descriptor>, data: seq<byte>, max: int, startIndex: nat, next: int,
                                before: seq<byte>, after: seq<byte>, room: int)
    requires |data| + 2 < max && before == data + seq(max - |data|, _ => 0)
    requires next == SerializeEnd(ds, startIndex, max - |data| - 2)
    requires var w := Written(ds, startIndex, next);
      2 + |w| <= max - |data| && room == max - |data| - 2 - |w|
      && after == Patch(before, |data|, EncodeBE16(LengthWord(|w|)) + w)
    ensures 0 <= |data| + room <= |after| && LengthBlockAsWritten(ds, data, max, startIndex, next, after[..|data| + room])
  {
    var w := Written(ds, startIndex, next);
    LengthBlockContents(data, max, EncodeBE16(LengthWord(|w|)), w, |data| + room);
  }
}
