/** What a definition resolves to: the facts the partition table built from an
    environment definition can be relied on for, proved once about `Resolve` (and so, by
    the contract of `Scan`, about the scanner). */
module Layout {
  import opened CTypes
  import opened Entry
  import opened Definition

  /** The number of commas in `def[a..]`. */
  function CommasFrom(def: seq<char>, a: nat): (n: nat)
    requires a <= |def|
    ensures n <= |def| - a
    decreases |def| - a
  {
    if a == |def| then 0 else (if def[a] == ',' then 1 else 0) + CommasFrom(def, a + 1)
  }

  /** The number of comma-separated segments, each of which may hold one entry. */
  function EntryCount(def: seq<char>): (n: nat)
    ensures 1 <= n <= |def| + 1
  {
    CommasFrom(def, 0) + 1
  }

  /** Counting commas one by one agrees with counting them in the multiset of characters. */
  lemma {:induction false} CommasAreCounted(def: seq<char>, a: nat)
    requires a <= |def|
    ensures CommasFrom(def, a) == multiset(def[a..])[',']
    decreases |def| - a
  {
    if a < |def| {
      CommasAreCounted(def, a + 1);
      assert def[a..] == [def[a]] + def[a + 1..];
    }
  }

  /** A segment holds no comma, so the count at its start is the count at its end. */
  lemma {:induction false} SegmentHasNoCommas(def: seq<char>, a: nat)
    requires a <= |def|
    ensures CommasFrom(def, a) == CommasFrom(def, SegEnd(def, a))
    decreases |def| - a
  {
    if a < |def| && def[a] != ',' {
      SegmentHasNoCommas(def, a + 1);
    }
  }

  /** The first segment of the parse either decides a sound outcome or passes a running
      end that is again whole sectors within the disk to the next segment. */
  lemma SoundStep(def: CStr, a: nat, k: nat, target: nat, total: u64, endLast: u64)
    returns (next: bool, b: nat, end: u64)
    requires a <= |def| && endLast <= total && endLast % SECTOR_SIZE == 0
    ensures next ==>
      a < b <= |def| && end <= total && end % SECTOR_SIZE == 0 &&
      Walk(def, a, k, target, total, endLast) == Walk(def, b, k + 1, target, total, end)
    ensures !next ==>
      var r := Walk(def, a, k, target, total, endLast);
      r != Err(MisalignedOffset) && r != Err(NoDefinition) &&
      (r.Ok? ==> r.value.offset % SECTOR_SIZE == 0 && r.value.size % SECTOR_SIZE == 0 &&
                 r.value.offset <= total && Wrap(r.value.offset + r.value.size) <= total)
  {
    next, b, end := false, a, endLast;
    var e := SegEnd(def, a);
    match FirstStart(def, a, e)
    case None =>
      WalkEmpty(def, a, k, target, total, endLast);
    case Some(st) =>
      if k > target {
        WalkBeyondTarget(def, a, k, target, total, endLast);
      } else if k == target && RepeatedBracket(def[st..e]) {
        WalkDuplicate(def, a, k, total, endLast, st);
      } else {
        match PlaceEntry(def[st..e], endLast, total)
        case Err(f) =>
          WalkPlaceFails(def, a, e, k, target, total, endLast, st, f);
        case Ok(x) =>
          if k == target {
            WalkTarget(def, a, e, k, total, endLast, st, x);
          } else {
            WalkNext(def, a, e, k, target, total, endLast, st, x);
            if e < |def| {
              next, b, end := true, e + 1, x.end;
            }
          }
      }
  }

  /** On success the partition is whole sectors, starts on the disk and, in the 64-bit
      arithmetic of the source, ends on it; a misaligned offset is never reported, since
      every running end is a whole number of sectors within the disk, and a missing
      definition is not the scanner's to report. */
  lemma {:induction false} WalkSound(def: CStr, a: nat, k: nat, target: nat, total: u64, endLast: u64)
    requires a <= |def| && endLast <= total && endLast % SECTOR_SIZE == 0
    ensures Walk(def, a, k, target, total, endLast) != Err(MisalignedOffset)
    ensures Walk(def, a, k, target, total, endLast) != Err(NoDefinition)
    ensures var r := Walk(def, a, k, target, total, endLast);
            r.Ok? ==> r.value.offset % SECTOR_SIZE == 0 && r.value.size % SECTOR_SIZE == 0 &&
                      r.value.offset <= total && Wrap(r.value.offset + r.value.size) <= total
    decreases |def| - a
  {
    var next, b, end := SoundStep(def, a, k, target, total, endLast);
    if next {
      WalkSound(def, b, k + 1, target, total, end);
    }
  }

  lemma ResolveSound(def: CStr, part: int32, total: u64)
    ensures Resolve(def, part, total) != Err(MisalignedOffset)
    ensures Resolve(def, part, total) != Err(NoDefinition)
    ensures var r := Resolve(def, part, total);
            r.Ok? ==> r.value.offset % SECTOR_SIZE == 0 && r.value.size % SECTOR_SIZE == 0 &&
                      r.value.offset <= total && Wrap(r.value.offset + r.value.size) <= total
  {
    WalkSound(def, 0, 1, ToUnsigned(part), total, 0);
  }

  /** The requested entry starts where the previous one ended. */
  lemma WalkTargetOffset(def: CStr, a: nat, k: nat, total: u64, endLast: u64)
    requires a <= |def| && endLast <= total
    requires Walk(def, a, k, k, total, endLast).Ok?
    ensures Walk(def, a, k, k, total, endLast).value.offset == endLast
  {
    var e := SegEnd(def, a);
    var st := FirstStart(def, a, e).value;
    WalkReachesPlacement(def, a, e, k, k, total, endLast, st);
  }

  /** The requested entry, when found, is the placement of the first entry of the segment. */
  lemma TargetExtent(def: CStr, a: nat, k: nat, total: u64, endLast: u64) returns (e: nat, st: nat, x: Extent)
    requires a <= |def| && Walk(def, a, k, k, total, endLast).Ok?
    ensures e == SegEnd(def, a) && FirstStart(def, a, e) == Some(st) && a <= st < e
    ensures PlaceEntry(def[st..e], endLast, total) == Ok(x)
    ensures Walk(def, a, k, k, total, endLast).value.offset == x.offset
    ensures Walk(def, a, k, k, total, endLast).value.size == x.size
  {
    e, st, x := WalkOkStep(def, a, k, k, total, endLast);
  }

  /** The entry after the first one, when found, begins where the first one ends. */
  lemma SecondOffset(def: CStr, a: nat, k: nat, total: u64, endLast: u64) returns (e: nat, st: nat, x: Extent)
    requires a <= |def| && endLast <= total && Walk(def, a, k, k + 1, total, endLast).Ok?
    ensures e == SegEnd(def, a) && FirstStart(def, a, e) == Some(st) && a <= st < e
    ensures PlaceEntry(def[st..e], endLast, total) == Ok(x)
    ensures Walk(def, a, k, k + 1, total, endLast).value.offset == x.end
  {
    e, st, x := WalkOkStep(def, a, k, k + 1, total, endLast);
    WalkTargetOffset(def, e + 1, k + 1, total, x.end);
  }

  /** The partition after the requested one begins where the requested one ends. */
  lemma NextAfterTarget(def: CStr, a: nat, k: nat, total: u64, endLast: u64)
    requires a <= |def| && endLast <= total
    requires Walk(def, a, k, k, total, endLast).Ok? && Walk(def, a, k, k + 1, total, endLast).Ok?
    ensures var p := Walk(def, a, k, k, total, endLast).value;
            Walk(def, a, k, k + 1, total, endLast).value.offset == Wrap(p.offset + p.size)
  {
    var e, st, x := TargetExtent(def, a, k, total, endLast);
    var e', st', x' := SecondOffset(def, a, k, total, endLast);
    assert x' == x;
  }

  /** Before the requested entry, the parses for `t` and `t + 1` move on together. */
  lemma NeighboursStep(def: CStr, a: nat, k: nat, t: nat, total: u64, endLast: u64) returns (b: nat, end: u64)
    requires a <= |def| && k < t
    requires Walk(def, a, k, t, total, endLast).Ok? && Walk(def, a, k, t + 1, total, endLast).Ok?
    ensures a < b <= |def| && end <= total
    ensures Walk(def, a, k, t, total, endLast) == Walk(def, b, k + 1, t, total, end)
    ensures Walk(def, a, k, t + 1, total, endLast) == Walk(def, b, k + 1, t + 1, total, end)
  {
    var e, st, x := WalkOkStep(def, a, k, t, total, endLast);
    WalkNext(def, a, e, k, t + 1, total, endLast, st, x);
    b, end := e + 1, x.end;
  }

  /** Entries `t` and `t + 1` lie back to back. */
  lemma {:induction false} WalkNeighbours(def: CStr, a: nat, k: nat, t: nat, total: u64, endLast: u64)
    requires a <= |def| && endLast <= total && k <= t
    requires Walk(def, a, k, t, total, endLast).Ok? && Walk(def, a, k, t + 1, total, endLast).Ok?
    ensures var p := Walk(def, a, k, t, total, endLast).value;
            Walk(def, a, k, t + 1, total, endLast).value.offset == Wrap(p.offset + p.size)
    decreases |def| - a
  {
    if k == t {
      NextAfterTarget(def, a, k, total, endLast);
    } else {
      var b, end := NeighboursStep(def, a, k, t, total, endLast);
      WalkNeighbours(def, b, k + 1, t, total, end);
    }
  }

  /** Every partition begins where the one before it ends: the table is contiguous. */
  lemma ResolveContiguous(def: CStr, part: int32, total: u64)
    requires 1 <= part < 0x7fff_ffff
    requires Resolve(def, part, total).Ok? && Resolve(def, part + 1, total).Ok?
    ensures var p := Resolve(def, part, total).value;
            Resolve(def, part + 1, total).value.offset == Wrap(p.offset + p.size)
  {
    WalkNeighbours(def, 0, 1, part, total, 0);
  }

  /** The first partition begins at the start of the disk. */
  lemma FirstEntryAtZero(def: CStr, total: u64)
    requires Resolve(def, 1, total).Ok?
    ensures Resolve(def, 1, total).value.offset == 0
  {
    WalkTargetOffset(def, 0, 1, total, 0);
  }

  /** Only an entry of the definition can be found: the requested number lies between the
      number of the current segment and that plus the commas still ahead. */
  lemma {:induction false} WalkIndexRange(def: CStr, a: nat, k: nat, target: nat, total: u64, endLast: u64)
    requires a <= |def|
    requires Walk(def, a, k, target, total, endLast).Ok?
    ensures k <= target <= k + CommasFrom(def, a)
    decreases |def| - a
  {
    var e := SegEnd(def, a);
    var st := FirstStart(def, a, e).value;
    SegmentHasNoCommas(def, a);
    if k < target {
      WalkReachesPlacement(def, a, e, k, target, total, endLast, st);
      var x := PlaceEntry(def[st..e], endLast, total).value;
      WalkIndexRange(def, e + 1, k + 1, target, total, x.end);
    }
  }

  /** A successful lookup names an existing entry, counted from 1. The C index is
      compared as `unsigned`, so a negative index would have to exceed the entry count
      to fail that way; on a definition shorter than 2^31 - 1 characters none succeeds. */
  lemma ResolveIndexInRange(def: CStr, part: int32, total: u64)
    requires Resolve(def, part, total).Ok?
    ensures 1 <= ToUnsigned(part) <= EntryCount(def)
    ensures |def| < 0x7fff_ffff ==> 1 <= part
  {
    WalkIndexRange(def, 0, 1, ToUnsigned(part), total, 0);
  }

  /** Index 0 fails as soon as the first entry begins (or, with no first entry, on the
      empty entry). */
  lemma ZeroIndexFails(def: CStr, total: u64)
    ensures Resolve(def, 0, total)
         == if FirstStart(def, 0, SegEnd(def, 0)).None? then Err(EmptyEntry) else Err(IndexNotFound)
  {
    var e := SegEnd(def, 0);
    if st :| FirstStart(def, 0, e) == Some(st) {
      assert Walk(def, 0, 1, 0, total, 0) == WalkEntry(def, 0, st, e, 1, 0, total, 0);
    }
  }

  lemma {:induction false} SegEndOfExtension(def: seq<char>, ext: seq<char>, a: nat)
    requires |def| < |ext| && ext[..|def|] == def && ext[|def|] == ',' && a <= |def|
    ensures SegEnd(ext, a) == SegEnd(def, a)
    decreases |def| - a
  {
    assert forall j :: 0 <= j < |def| ==> ext[..|def|][j] == ext[j];
    if a < |def| && def[a] != ',' {
      SegEndOfExtension(def, ext, a + 1);
    }
  }

  lemma {:induction false} FirstStartOfExtension(def: seq<char>, ext: seq<char>, a: nat, hi: nat)
    requires |def| < |ext| && ext[..|def|] == def && a <= hi <= |def|
    ensures FirstStart(ext, a, hi) == FirstStart(def, a, hi)
    decreases hi
  {
    assert forall j :: 0 <= j < |def| ==> ext[..|def|][j] == ext[j];
    if a < hi {
      FirstStartOfExtension(def, ext, a, hi - 1);
    }
  }

  /** A segment of `def` is the same segment of the extension, with the same entry. */
  lemma SameSegment(def: CStr, ext: CStr, a: nat)
    requires |def| < |ext| && ext[..|def|] == def && ext[|def|] == ',' && a <= |def|
    ensures SegEnd(ext, a) == SegEnd(def, a)
    ensures FirstStart(ext, a, SegEnd(def, a)) == FirstStart(def, a, SegEnd(def, a))
    ensures FirstStart(def, a, SegEnd(def, a)).Some? ==>
      var st := FirstStart(def, a, SegEnd(def, a)).value;
      ext[st..SegEnd(def, a)] == def[st..SegEnd(def, a)]
  {
    var e := SegEnd(def, a);
    SegEndOfExtension(def, ext, a);
    FirstStartOfExtension(def, ext, a, e);
    if st :| FirstStart(def, a, e) == Some(st) {
      assert ext[st..e] == def[st..e] by {
        assert forall j :: st <= j < e ==> ext[..|def|][j] == ext[j];
      }
    }
  }

  /** The first segment either decides both parses alike, or both move on together. */
  lemma TailStep(def: CStr, ext: CStr, a: nat, k: nat, target: nat, total: u64, endLast: u64)
    returns (next: bool, b: nat, end: u64)
    requires |def| < |ext| && ext[..|def|] == def && ext[|def|] == ',' && a <= |def|
    requires Walk(def, a, k, target, total, endLast) != Err(IndexNotFound)
    ensures next ==>
      a < b <= |def| &&
      Walk(def, a, k, target, total, endLast) == Walk(def, b, k + 1, target, total, end) &&
      Walk(ext, a, k, target, total, endLast) == Walk(ext, b, k + 1, target, total, end)
    ensures !next ==> Walk(ext, a, k, target, total, endLast) == Walk(def, a, k, target, total, endLast)
  {
    next, b, end := false, a, endLast;
    var e := SegEnd(def, a);
    SameSegment(def, ext, a);
    match FirstStart(def, a, e)
    case None =>
      WalkEmpty(def, a, k, target, total, endLast);
      WalkEmpty(ext, a, k, target, total, endLast);
    case Some(st) =>
      var tok := def[st..e];
      if k > target {
        WalkBeyondTarget(def, a, k, target, total, endLast);
        WalkBeyondTarget(ext, a, k, target, total, endLast);
      } else if k == target && RepeatedBracket(tok) {
        WalkDuplicate(def, a, k, total, endLast, st);
        WalkDuplicate(ext, a, k, total, endLast, st);
      } else {
        match PlaceEntry(tok, endLast, total)
        case Err(f) =>
          WalkPlaceFails(def, a, e, k, target, total, endLast, st, f);
          WalkPlaceFails(ext, a, e, k, target, total, endLast, st, f);
        case Ok(x) =>
          if k == target {
            WalkTarget(def, a, e, k, total, endLast, st, x);
            WalkTarget(ext, a, e, k, total, endLast, st, x);
          } else {
            WalkNext(def, a, e, k, target, total, endLast, st, x);
            WalkNext(ext, a, e, k, target, total, endLast, st, x);
            next, b, end := true, e + 1, x.end;
          }
      }
  }

  /** What follows the segment in which the parse ends is never read. */
  lemma {:induction false} WalkIgnoresTail(def: CStr, ext: CStr, a: nat, k: nat, target: nat, total: u64, endLast: u64)
    requires |def| < |ext| && ext[..|def|] == def && ext[|def|] == ',' && a <= |def|
    requires Walk(def, a, k, target, total, endLast) != Err(IndexNotFound)
    ensures Walk(ext, a, k, target, total, endLast) == Walk(def, a, k, target, total, endLast)
    decreases |def| - a
  {
    var next, b, end := TailStep(def, ext, a, k, target, total, endLast);
    if next {
      WalkIgnoresTail(def, ext, b, k + 1, target, total, end);
    }
  }

  /** The parse returns as soon as it decides: entries after the one that decided it,
      valid or not, make no difference. */
  lemma LaterEntriesNeverRead(def: CStr, ext: CStr, part: int32, total: u64)
    requires |def| < |ext| && ext[..|def|] == def && ext[|def|] == ','
    requires Resolve(def, part, total) != Err(IndexNotFound)
    ensures Resolve(ext, part, total) == Resolve(def, part, total)
  {
    WalkIgnoresTail(def, ext, 0, 1, ToUnsigned(part), total, 0);
  }

  /** A parse that succeeds before reaching the requested entry goes on with the next
      segment. */
  lemma WalkOkNext(def: CStr, a: nat, k: nat, target: nat, total: u64, endLast: u64) returns (b: nat, end: u64)
    requires a <= |def| && k < target && Walk(def, a, k, target, total, endLast).Ok?
    ensures a < b <= |def|
    ensures Walk(def, a, k, target, total, endLast) == Walk(def, b, k + 1, target, total, end)
  {
    var e, st, x := WalkOkStep(def, a, k, target, total, endLast);
    b, end := e + 1, x.end;
  }

  /** The name of the requested entry lies strictly between its brackets. */
  lemma TargetNameWellFormed(def: CStr, a: nat, k: nat, total: u64, endLast: u64)
    requires a <= |def| && Walk(def, a, k, k, total, endLast).Ok?
    ensures var n := Walk(def, a, k, k, total, endLast).value.name;
            n.Some? ==> |n.value| < PART_NAME_LEN && '(' !in n.value && ')' !in n.value && ',' !in n.value
  {
    var e, st, x := WalkOkStep(def, a, k, k, total, endLast);
    var tok := def[st..e];
    assert ',' !in tok;
    if EntryName(tok).value.Some? {
      NameHasNoBrackets(tok);
      NameCharsFromEntry(tok, ',');
    }
  }

  /** A returned name fits the name field and holds neither a bracket nor a comma. */
  lemma {:induction false} WalkNameWellFormed(def: CStr, a: nat, k: nat, target: nat, total: u64, endLast: u64)
    requires a <= |def|
    requires Walk(def, a, k, target, total, endLast).Ok?
    ensures var n := Walk(def, a, k, target, total, endLast).value.name;
            n.Some? ==> |n.value| < PART_NAME_LEN && '(' !in n.value && ')' !in n.value && ',' !in n.value
    decreases |def| - a
  {
    var e, st, x := WalkOkStep(def, a, k, target, total, endLast);
    if k < target {
      var b, end := WalkOkNext(def, a, k, target, total, endLast);
      WalkNameWellFormed(def, b, k + 1, target, total, end);
    } else {
      TargetNameWellFormed(def, a, k, total, endLast);
    }
  }

  lemma ResolveNameWellFormed(def: CStr, part: int32, total: u64)
    requires Resolve(def, part, total).Ok?
    ensures var n := Resolve(def, part, total).value.name;
            n.Some? ==> |n.value| < PART_NAME_LEN && '(' !in n.value && ')' !in n.value && ',' !in n.value
  {
    WalkNameWellFormed(def, 0, 1, ToUnsigned(part), total, 0);
  }
}
