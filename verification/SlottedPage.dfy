/** The slotted page object: a 4096-byte array that every operation edits in place. */
module SlottedPages {
  import opened Wrappers
  import opened Bytes
  import opened PageFormat

  class SlottedPage {
    var bytes: array<byte>

    ghost predicate Valid()
      reads this, bytes
    {
      bytes.Length == PAGE_SIZE && ValidImage(bytes[..])
    }

    ghost function Id(): nat
      requires Valid()
      reads this, bytes
    {
      PageId(bytes[..])
    }

    /** The page as its users see it: one optional record per slot. */
    ghost function Contents(): Records
      requires Valid()
      reads this, bytes
    {
      RecordsOf(bytes[..])
    }

    constructor Initialize(pageId: nat)
      requires pageId < 0x1_0000_0000
      ensures Valid() && fresh(bytes)
      ensures Id() == pageId && Contents() == []
    {
      bytes := new byte[PAGE_SIZE](_ => 0);
      new;
      hide LE, FromLE, Get, Formed, Checksum, RecordsOf, Splice, Sealed;
      assert bytes[..] == Zeros(PAGE_SIZE);
      CopyInto(bytes, 0, LE(4, MAGIC));
      CopyInto(bytes, VERSION_AT, LE(2, VERSION));
      CopyInto(bytes, PAGE_ID_AT, LE(4, pageId));
      CopyInto(bytes, COUNT_AT, LE(2, 0));
      CopyInto(bytes, FREE_START_AT, LE(2, HEADER_SIZE));
      CopyInto(bytes, FREE_END_AT, LE(2, PAGE_SIZE));
      assert bytes[..] == Blank(pageId);
      BlankFormed(pageId);
      SealedValid(bytes[..]);
      UpdateChecksum();
    }

    constructor FromImage(image: Image)
      ensures fresh(bytes) && bytes.Length == PAGE_SIZE && bytes[..] == image
    {
      bytes := new byte[PAGE_SIZE](k requires 0 <= k < PAGE_SIZE => image[k]);
    }

    /** Accepts a page image exactly when it is valid. */
    static method FromBytes(image: Image) returns (r: Result<SlottedPage>)
      ensures r.Ok? <==> ValidImage(image)
      ensures r.Ok? ==> fresh(r.value) && fresh(r.value.bytes) && r.value.Valid() && r.value.bytes[..] == image
      ensures r.Err? ==> r.error == PageCorruption
    {
      var page := new SlottedPage.FromImage(image);
      var ok := page.Validate();
      r := if ok then Ok(page) else Err(PageCorruption);
    }

    method Field(offset: nat, width: nat) returns (value: nat)
      requires bytes.Length == PAGE_SIZE && offset + width <= PAGE_SIZE
      ensures value == Get(bytes[..], offset, width)
    {
      value := ReadLE(bytes[..], offset, width);
    }

    method ReadSlot(i: nat) returns (s: Slot)
      requires bytes.Length == PAGE_SIZE && DirectoryEnd(i + 1) <= PAGE_SIZE
      ensures s == SlotAt(bytes[..], i)
    {
      var at := DirectoryEnd(i);
      var offset := Field(at, 2);
      var length := Field(at + 2, 2);
      var flags := Field(at + 4, 2);
      s := Slot(offset, length, flags);
    }

    method PageNumber() returns (id: nat)
      requires Valid()
      ensures id == Id()
    {
      id := Field(PAGE_ID_AT, 4);
    }

    method Count() returns (slots: nat)
      requires Valid()
      ensures slots == |Contents()| == SlotCount(bytes[..]) && DirectoryEnd(slots) <= PAGE_SIZE
    {
      slots := Field(COUNT_AT, 2);
    }

    /** The directory entry of slot i, in terms of the record it holds. */
    method ReadEntry(i: nat) returns (s: Slot)
      requires Valid() && i < |Contents()|
      ensures s.length == Size(Contents()[i])
      ensures s.flags == 0 <==> Contents()[i] == None
      ensures s.offset + s.length <= PAGE_SIZE
      ensures s.flags != 0 ==> Contents()[i] == Some(bytes[s.offset..s.offset + s.length])
    {
      s := ReadSlot(i);
      assert SlotOk(s, FreeEnd(bytes[..]));
      assert Contents()[i] == RecordAt(bytes[..], i);
    }

    method FreeSpace() returns (space: nat, freeEnd: nat)
      requires Valid()
      ensures freeEnd == FreeEnd(bytes[..]) && space == freeEnd - FreeStart(bytes[..])
      ensures space <= Reclaimable(Contents())
    {
      PayloadFits(bytes[..]);
      freeEnd := Field(FREE_END_AT, 2);
      var freeStart := Field(FREE_START_AT, 2);
      space := freeEnd - freeStart;
    }

    method UpdateChecksum()
      requires bytes.Length == PAGE_SIZE
      modifies bytes
      ensures bytes[..] == Sealed(old(bytes[..]))
    {
      var hash := FNV_OFFSET;
      for index := 0 to PAGE_SIZE
        invariant hash == Fold(bytes[..], index)
      {
        hash := FnvStep(hash, Masked(bytes[..], index));
      }
      CopyInto(bytes, CHECKSUM_AT, LE(4, hash));
    }

    /** Decides page validity, marking every payload byte to find overlaps. */
    method Validate() returns (ok: bool)
      requires bytes.Length == PAGE_SIZE
      ensures ok <==> ValidImage(bytes[..])
    {
      var magic := Field(0, 4);
      var version := Field(VERSION_AT, 2);
      if magic != MAGIC || version != VERSION {
        return false;
      }
      var stored := Field(CHECKSUM_AT, 4);
      var hash := FNV_OFFSET;
      for index := 0 to PAGE_SIZE
        invariant hash == Fold(bytes[..], index)
      {
        hash := FnvStep(hash, Masked(bytes[..], index));
      }
      var flags := Field(FLAGS_AT, 2);
      var reserved := Field(RESERVED_AT, 2);
      if stored != hash || flags != 0 || reserved != 0 {
        return false;
      }
      var slots := Field(COUNT_AT, 2);
      var freeStart := Field(FREE_START_AT, 2);
      var freeEnd := Field(FREE_END_AT, 2);
      if freeStart != DirectoryEnd(slots) || freeStart > freeEnd || freeEnd > PAGE_SIZE {
        return false;
      }
      ok := SlotsValid(slots, freeEnd);
    }

    method SlotsValid(slots: nat, freeEnd: nat) returns (ok: bool)
      requires bytes.Length == PAGE_SIZE && HeaderOk(bytes[..])
      requires slots == SlotCount(bytes[..]) && freeEnd == FreeEnd(bytes[..])
      requires DirectoryEnd(slots) <= PAGE_SIZE
      ensures ok <==> Formed(bytes[..])
    {
      hide Interval, SlotAt, Get, HeaderOk, SlotsOk, Occupied;
      var occupied := new bool[PAGE_SIZE](_ => false);
      ghost var b := bytes[..];
      NoSlots(b, freeEnd);
      for i := 0 to slots
        invariant bytes[..] == b
        invariant SlotsOk(b, i, freeEnd)
        invariant forall k :: 0 <= k < PAGE_SIZE ==> (occupied[k] <==> k in Occupied(b, i))
      {
        var slot := ReadSlot(i);
        SlotsOkStep(b, i, freeEnd);
        if SlotsOk(b, slots, freeEnd) {
          SlotsOkPrefix(b, i + 1, slots, freeEnd);
        }
        OccupiedStep(b, i);
        if slot.flags != 0 && slot.flags != LIVE {
          return false;
        }
        if slot.flags == 0 {
          if slot.offset != 0 || slot.length != 0 {
            return false;
          }
          continue;
        }
        if slot.length == 0 || slot.offset < freeEnd || slot.offset + slot.length > PAGE_SIZE {
          return false;
        }
        var clear := MarkOccupied(occupied, slot, Occupied(b, i));
        if !clear {
          return false;
        }
      }
      ok := true;
    }

    /** Marks a payload's positions unless one of them is taken already. */
    method MarkOccupied(occupied: array<bool>, slot: Slot, ghost prior: set<int>) returns (clear: bool)
      requires occupied.Length == PAGE_SIZE && slot.offset + slot.length <= PAGE_SIZE
      requires forall k :: 0 <= k < PAGE_SIZE ==> (occupied[k] <==> k in prior)
      modifies occupied
      ensures clear <==> prior !! Interval(slot.offset, slot.offset + slot.length)
      ensures clear ==> forall k :: 0 <= k < PAGE_SIZE ==>
        (occupied[k] <==> k in prior + Interval(slot.offset, slot.offset + slot.length))
    {
      hide Interval;
      var index := slot.offset;
      while index < slot.offset + slot.length
        invariant slot.offset <= index <= slot.offset + slot.length
        invariant forall k :: slot.offset <= k < index ==> k !in prior
        invariant forall k :: 0 <= k < PAGE_SIZE ==>
          (occupied[k] <==> k in prior || slot.offset <= k < index)
      {
        if occupied[index] {
          assert index in prior * Interval(slot.offset, slot.offset + slot.length);
          return false;
        }
        occupied[index] := true;
        index := index + 1;
      }
      clear := true;
    }

    method ReclaimableSpace() returns (space: nat)
      requires Valid()
      ensures space == Reclaimable(Contents())
    {
      hide SlotAt, Get;
      PayloadFits(bytes[..]);
      var used := 0;
      var slots := Field(COUNT_AT, 2);
      for i := 0 to slots
        invariant used == Total(Contents()[..i])
      {
        var entry := ReadSlot(i);
        TotalStep(Contents(), i);
        if entry.flags != 0 {
          used := used + entry.length;
        }
      }
      assert Contents()[..slots] == Contents();
      space := PAGE_SIZE - DirectoryEnd(slots) - used;
    }

    method Contains(slotId: nat) returns (live: bool)
      requires Valid()
      ensures live <==> slotId < |Contents()| && Contents()[slotId].Some?
    {
      var slots := Field(COUNT_AT, 2);
      if slotId >= slots {
        return false;
      }
      var slot := ReadSlot(slotId);
      live := slot.flags != 0;
    }

    method Read(slotId: nat) returns (r: Result<seq<byte>>)
      requires Valid()
      ensures r == if slotId < |Contents()| && Contents()[slotId].Some?
                   then Ok(Contents()[slotId].value) else Err(OutOfRange)
    {
      var slots := Field(COUNT_AT, 2);
      if slotId >= slots {
        return Err(OutOfRange);
      }
      var slot := ReadSlot(slotId);
      if slot.flags == 0 {
        return Err(OutOfRange);
      }
      r := Ok(bytes[slot.offset..slot.offset + slot.length]);
    }

    /** Succeeds exactly when the record fits into reclaimable space, in the first free slot. */
    method Insert(record: seq<byte>) returns (r: Result<nat>)
      requires Valid()
      modifies this, bytes
      ensures Valid() && Id() == old(Id()) && (bytes == old(bytes) || fresh(bytes))
      ensures r.Ok? <==> record != [] && Fits(old(Contents()), |record|)
      ensures var rs := WithRecord(old(Contents()), FirstFree(old(Contents())), record);
        r.Ok? <==> record != [] && |record| <= 0xFFFF && Total(rs) + 24 + 6 * |rs| <= 4096
      ensures r.Ok? ==> r.value == FirstFree(old(Contents())) &&
                        Contents() == WithRecord(old(Contents()), r.value, record)
      ensures r.Err? ==> Contents() == old(Contents()) &&
                         r.error == if record == [] then InvalidArgument else PageFull
    {
      FitsMeans(Contents(), record);
      if record == [] {
        return Err(InvalidArgument);
      }
      if |record| > MAX_RECORD {
        return Err(PageFull);
      }
      hide ValidImage, RecordsOf, FirstFree, Get, Reclaimable, WithRecord, Need;
      var target, slots, need := SlotFor(record);
      var room, freeEnd := EnsureSpace(need);
      if !room {
        return Err(PageFull);
      }
      Place(record, target, slots, freeEnd);
      r := Ok(target);
    }

    /** The slot an insertion takes, and the bytes it needs there. */
    method SlotFor(record: seq<byte>) returns (target: nat, slots: nat, need: nat)
      requires Valid()
      ensures target == FirstFree(Contents()) && slots == |Contents()|
      ensures need == Need(Contents(), |record|)
    {
      hide ValidImage, RecordsOf, FirstFree, Get;
      slots := Count();
      for slot := 0 to slots
        invariant forall k :: 0 <= k < slot ==> Contents()[k].Some?
      {
        var entry := ReadEntry(slot);
        if entry.flags == 0 {
          return slot, slots, |record|;
        }
      }
      target, need := slots, |record| + SLOT_SIZE;
    }

    /** Compacts when the contiguous gap is too small, and says whether it is large enough now. */
    method EnsureSpace(need: nat) returns (room: bool, freeEnd: nat)
      requires Valid()
      modifies this
      ensures Valid() && Id() == old(Id()) && Contents() == old(Contents())
      ensures bytes == old(bytes) || fresh(bytes)
      ensures room <==> need <= Reclaimable(Contents())
      ensures room ==> need <= FreeEnd(bytes[..]) - FreeStart(bytes[..])
      ensures freeEnd == FreeEnd(bytes[..])
    {
      hide ValidImage, RecordsOf, Total, Get, Reclaimable;
      var space;
      space, freeEnd := FreeSpace();
      if need > space {
        Compact();
        space, freeEnd := FreeSpace();
      }
      room := need <= space;
    }

    /** The writes of a successful insertion. */
    method Place(record: seq<byte>, target: nat, slots: nat, freeEnd: nat)
      requires Valid() && record != []
      requires slots == |Contents()| && freeEnd == FreeEnd(bytes[..])
      requires target == FirstFree(Contents())
      requires Need(Contents(), |record|) <= FreeEnd(bytes[..]) - FreeStart(bytes[..])
      modifies bytes
      ensures Valid() && Id() == old(Id())
      ensures Contents() == WithRecord(old(Contents()), target, record)
    {
      hide SlotAt, Get, FirstFree, RecordsOf, Sealed, Formed, RecordAt, WithRecord, Inserted;
      ghost var b := bytes[..];
      WriteRecord(record, target, slots, freeEnd);
      InsertedContents(b, record);
      SealedValid(bytes[..]);
      UpdateChecksum();
    }

    method WriteRecord(record: seq<byte>, target: nat, slots: nat, freeEnd: nat)
      requires Valid()
      requires slots == |Contents()| && freeEnd == FreeEnd(bytes[..])
      requires target == FirstFree(Contents())
      requires Need(Contents(), |record|) <= FreeEnd(bytes[..]) - FreeStart(bytes[..])
      modifies bytes
      ensures bytes[..] == Inserted(old(bytes[..]), record)
    {
      hide SlotAt, Get, FirstFree, SlotBytes, RecordsOf, LE, Formed, RecordAt, Splice, Recounted;
      FormedHeader(bytes[..]);
      var newEnd := freeEnd - |record|;
      CopyInto(bytes, newEnd, record);
      CopyInto(bytes, DirectoryEnd(target), SlotBytes(Slot(newEnd, |record|, LIVE)));
      Recount(slots, newEnd, target == slots);
    }

    method Recount(slots: nat, newEnd: nat, grows: bool)
      requires bytes.Length == PAGE_SIZE
      modifies bytes
      ensures bytes[..] == Recounted(old(bytes[..]), slots, newEnd, grows)
    {
      hide LE, Splice;
      CopyInto(bytes, FREE_END_AT, LE(2, newEnd));
      if grows {
        CopyInto(bytes, COUNT_AT, LE(2, slots + 1));
        CopyInto(bytes, FREE_START_AT, LE(2, DirectoryEnd(slots + 1)));
      }
    }

    method Erase(slotId: nat) returns (erased: bool)
      requires Valid()
      modifies bytes
      ensures Valid() && Id() == old(Id())
      ensures erased <==> slotId < |old(Contents())| && old(Contents())[slotId].Some?
      ensures Contents() == if erased then old(Contents())[slotId := None] else old(Contents())
    {
      var slots := Field(COUNT_AT, 2);
      if slotId >= slots {
        return false;
      }
      var slot := ReadSlot(slotId);
      if slot.flags == 0 {
        return false;
      }
      ghost var b := bytes[..];
      CopyInto(bytes, DirectoryEnd(slotId), SlotBytes(TOMBSTONE));
      ErasedContents(b, slotId);
      SealedValid(bytes[..]);
      UpdateChecksum();
      erased := true;
    }

    /** Rebuilds the page around a new value for one slot; fails only when the total is too large. */
    method Replace(slotId: nat, record: seq<byte>) returns (r: Result<()>)
      requires Valid()
      modifies this, bytes
      ensures Valid() && Id() == old(Id()) && (bytes == old(bytes) || fresh(bytes))
      ensures r.Ok? <==> && record != [] && |record| <= MAX_RECORD
                         && slotId < |old(Contents())| && old(Contents())[slotId].Some?
                         && Reclaimable(old(Contents())[slotId := Some(record)]) >= 0
      ensures Contents() == if r.Ok? then old(Contents())[slotId := Some(record)] else old(Contents())
      ensures r.Err? ==> r.error == if record == [] then InvalidArgument
                                    else if |record| > MAX_RECORD then PageFull
                                    else if slotId < |old(Contents())| && old(Contents())[slotId].Some?
                                    then PageFull else OutOfRange
    {
      if record == [] {
        return Err(InvalidArgument);
      }
      if |record| > MAX_RECORD {
        return Err(PageFull);
      }
      var live := Contains(slotId);
      if !live {
        return Err(OutOfRange);
      }
      hide ValidImage, RecordsOf, Total, Get;
      var slots := Count();
      var payload := PayloadWith(slotId, record);
      if DirectoryEnd(slots) + payload > PAGE_SIZE {
        return Err(PageFull);
      }
      Rebuild(Some((slotId, record)));
      r := Ok(());
    }

    /** Payload bytes after giving slot `slotId` the new record. */
    method PayloadWith(slotId: nat, record: seq<byte>) returns (payload: nat)
      requires Valid() && slotId < |Contents()|
      ensures payload == Total(Contents()[slotId := Some(record)])
    {
      hide ValidImage, RecordsOf, Total, Get;
      ghost var target := Contents()[slotId := Some(record)];
      payload := |record|;
      var slots := Count();
      EmptyTotal(target[..0]);
      for current := 0 to slots
        invariant payload == Total(target[..current]) + if current <= slotId then |record| else 0
      {
        TotalStep(target, current);
        if current == slotId {
          continue;
        }
        var slot := ReadEntry(current);
        if slot.flags != 0 {
          payload := payload + slot.length;
        }
      }
      assert target[..slots] == target;
    }

    method Compact()
      requires Valid()
      modifies this
      ensures Valid() && Id() == old(Id()) && fresh(bytes)
      ensures Contents() == old(Contents())
      ensures FreeEnd(bytes[..]) - FreeStart(bytes[..]) == Reclaimable(Contents())
    {
      PayloadFits(bytes[..]);
      Rebuild(None);
    }

    /** The common loop of compact and replace: repacks all live records into a blank page. */
    method Rebuild(replacement: Option<(nat, seq<byte>)>)
      requires Valid()
      requires replacement.Some? ==> && replacement.value.0 < |Contents()|
                                     && Contents()[replacement.value.0].Some?
                                     && 0 < |replacement.value.1|
      requires Reclaimable(Replaced(Contents(), replacement)) >= 0
      modifies this
      ensures Valid() && Id() == old(Id()) && fresh(bytes)
      ensures Contents() == Replaced(old(Contents()), replacement)
      ensures FreeEnd(bytes[..]) == PAGE_SIZE - Total(Contents())
    {
      hide SlotAt, Get, SlotBytes, LE, Checksum, Fold, Total, Sealed, PackedHere, PackStep;
      ghost var b := bytes[..];
      ghost var target := Replaced(Contents(), replacement);
      var slots := Field(COUNT_AT, 2);
      var compacted := new byte[PAGE_SIZE](_ => 0);
      CopyInto(compacted, 0, bytes[..HEADER_SIZE]);
      var freeEnd := PAGE_SIZE;
      EmptyTotal(target[..0]);
      for i := 0 to slots
        invariant bytes == old(bytes) && bytes[..] == b
        invariant fresh(compacted)
        invariant freeEnd == PAGE_SIZE - Total(target[..i])
        invariant forall k :: 0 <= k < HEADER_SIZE ==> compacted[k] == b[k]
        invariant forall j :: 0 <= j < i ==> PackedHere(compacted[..], target, j)
      {
        ghost var c := compacted[..];
        var slot := ReadSlot(i);
        PackBounds(target, i);
        var record := if slot.flags == 0 then None
                      else if replacement.Some? && replacement.value.0 == i then Some(replacement.value.1)
                      else Some(bytes[slot.offset..slot.offset + slot.length]);
        assert record == target[i];
        freeEnd := freeEnd - Size(record);
        PackInto(compacted, i, record, freeEnd, target);
        PackStepKeeps(c, target, i, i);
        forall j | 0 <= j <= i
          ensures PackedHere(compacted[..], target, j)
        {
          PackStepKeeps(c, target, i, j);
        }
      }
      assert target[..slots] == target;
      FormedHeader(b);
      BoundedContents(b, compacted[..], target);
      CopyInto(compacted, FREE_START_AT, LE(2, DirectoryEnd(slots)));
      CopyInto(compacted, FREE_END_AT, LE(2, freeEnd));
      SealedValid(compacted[..]);
      bytes := compacted;
      UpdateChecksum();
    }

    /** One round of rebuilding: a tombstone is kept, a record goes below the ones before it. */
    method PackInto(compacted: array<byte>, i: nat, record: Option<seq<byte>>, freeEnd: nat,
                    ghost target: Records)
      requires compacted.Length == PAGE_SIZE
      requires i < |target| && record == target[i]
      requires Total(target[..i + 1]) <= PAGE_SIZE - DirectoryEnd(|target|)
      requires Size(record) <= Total(target[..i + 1]) == PAGE_SIZE - freeEnd
      modifies compacted
      ensures compacted[..] == PackStep(old(compacted[..]), target, i)
    {
      hide SlotBytes, Splice;
      match record {
        case None =>
          CopyInto(compacted, DirectoryEnd(i), SlotBytes(TOMBSTONE));
        case Some(bytes) =>
          CopyInto(compacted, freeEnd, bytes);
          CopyInto(compacted, DirectoryEnd(i), SlotBytes(Slot(freeEnd, |bytes|, LIVE)));
      }
    }
  }

  function Replaced(rs: Records, replacement: Option<(nat, seq<byte>)>): Records
    requires replacement.Some? ==> replacement.value.0 < |rs|
  {
    if replacement == None then rs else rs[replacement.value.0 := Some(replacement.value.1)]
  }
}
