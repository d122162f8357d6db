/** The partition-definition parser of disk/part_env.c: a definition such as
    `880K(bootloader),80K(dtb),-(data)` is read once from left to right, and the
    requested (1-based) entry is returned with its offset, size and name in bytes.

    `Resolve` states the outcome entry by entry: split at commas, an entry begins at the
    first character of its comma-separated segment that is not a bracket or `@`, and each
    entry is placed right after the previous one. `Scan` is the single-pass character
    scanner of the source, proved to compute exactly `Resolve`. */
module Definition {
  import opened CTypes
  import opened Decimal
  import opened Entry

  /** What the parser hands back for the requested entry. `name` is None when the entry
      has no brackets: the source then leaves the caller's name field as it was. */
  datatype Found = Found(offset: u64, size: u64, name: Option<seq<char>>)

  /** Characters that open an entry when none is open: all but the delimiters,
      the brackets and `@`. */
  predicate StartsEntry(c: char) {
    c != ',' && c != '(' && c != ')' && c != '@' && c != '\0'
  }

  /** The `,` that closes the segment beginning at `a`, or the end of the string. */
  function SegEnd(def: seq<char>, a: nat): (e: nat)
    requires a <= |def|
    ensures a <= e <= |def|
    ensures e < |def| ==> def[e] == ','
    ensures forall j :: a <= j < e ==> def[j] != ','
    decreases |def| - a
  {
    if a == |def| || def[a] == ',' then a else SegEnd(def, a + 1)
  }

  /** The first position in `[a, hi)` whose character opens an entry. */
  function FirstStart(def: seq<char>, a: nat, hi: nat): (r: Option<nat>)
    requires a <= hi <= |def|
    ensures r.Some? ==> a <= r.value < hi && StartsEntry(def[r.value])
    ensures r.Some? ==> forall j :: a <= j < r.value ==> !StartsEntry(def[j])
    ensures r.None? ==> forall j :: a <= j < hi ==> !StartsEntry(def[j])
    decreases hi
  {
    if hi == a then None
    else match FirstStart(def, a, hi - 1)
      case Some(x) => Some(x)
      case None => if StartsEntry(def[hi - 1]) then Some(hi - 1) else None
  }

  /** The outcome of the parse from the segment beginning at `a` on, when that segment
      holds entry number `k`, `target` is the entry asked for and the previous entry
      ended at `endLast`: a segment in which no entry begins is an error. */
  function Walk(def: CStr, a: nat, k: nat, target: nat, total: u64, endLast: u64): Result<Found, Failure>
    requires a <= |def|
    decreases |def| - a, 1, 0
  {
    var e := SegEnd(def, a);
    match FirstStart(def, a, e)
    case None => Err(EmptyEntry)
    case Some(st) => WalkEntry(def, a, st, e, k, target, total, endLast)
  }

  /** The same, once the entry is known to occupy `[st, e)`: an entry past the target
      means the target does not exist, and the target's brackets must not repeat. */
  function WalkEntry(def: CStr, a: nat, st: nat, e: nat, k: nat, target: nat, total: u64, endLast: u64)
    : Result<Found, Failure>
    requires a <= st < e <= |def|
    decreases |def| - a, 0, 1
  {
    if k > target then Err(IndexNotFound)
    else if k == target && RepeatedBracket(def[st..e]) then Err(DuplicateBracket)
    else WalkPlaced(def, a, st, e, k, target, total, endLast)
  }

  /** The same, once those checks have passed: the entry is placed, and either the
      target is returned with its name or the parse moves on to the next segment. */
  function WalkPlaced(def: CStr, a: nat, st: nat, e: nat, k: nat, target: nat, total: u64, endLast: u64)
    : Result<Found, Failure>
    requires a <= st < e <= |def|
    decreases |def| - a, 0, 0
  {
    var tok := def[st..e];
    match PlaceEntry(tok, endLast, total)
    case Err(f) => Err(f)
    case Ok(x) =>
      if k == target then
        match EntryName(tok)
        case Err(f) => Err(f)
        case Ok(name) => Ok(Found(x.offset, x.size, name))
      else if e == |def| then Err(IndexNotFound)
      else Walk(def, e + 1, k + 1, target, total, x.end)
  }

  /** Partition `part` of definition `def` on a disk of `total` bytes. The C `int` index
      is compared with the `unsigned` entry counter, so a negative index is a huge one. */
  function Resolve(def: CStr, part: int32, total: u64): Result<Found, Failure> {
    Walk(def, 0, 1, ToUnsigned(part), total, 0)
  }

  /** Reading one more character of the segment. */
  lemma FirstStartStep(def: seq<char>, a: nat, i: nat)
    requires a <= i < |def|
    ensures FirstStart(def, a, i + 1)
         == if FirstStart(def, a, i).Some? then FirstStart(def, a, i)
            else if StartsEntry(def[i]) then Some(i) else None
  {
  }

  lemma FirstStartGrows(def: seq<char>, a: nat, lo: nat, hi: nat)
    requires a <= lo <= hi <= |def|
    requires FirstStart(def, a, lo).Some?
    ensures FirstStart(def, a, hi) == FirstStart(def, a, lo)
  {
    var x := FirstStart(def, a, lo).value;
    var y := FirstStart(def, a, hi);
    assert y.Some? && y.value <= x;
  }

  /** A bracket repeated in the requested entry ends the parse. */
  lemma WalkDuplicate(def: CStr, a: nat, k: nat, total: u64, endLast: u64, st: nat)
    requires a <= |def| && FirstStart(def, a, SegEnd(def, a)) == Some(st)
    requires RepeatedBracket(def[st..SegEnd(def, a)])
    ensures Walk(def, a, k, k, total, endLast) == Err(DuplicateBracket)
  {
  }

  /** The scanner's record of one bracket character `c` in the requested entry, which
      begins at `st`, after reading up to `i`: `p` is the only position of `c` in
      `[st, i)`, or None when there is none. */
  ghost predicate Tracks(def: seq<char>, st: nat, i: nat, c: char, p: Option<nat>)
    requires st <= i <= |def|
  {
    match p
    case None => forall j :: st <= j < i ==> def[j] != c
    case Some(x) => st <= x < i && def[x] == c && forall j :: st <= j < i && j != x ==> def[j] != c
  }

  /** Reading one more character: one other than `c` changes nothing, and the first
      `c` is recorded at its position. */
  lemma TracksStep(def: seq<char>, st: nat, i: nat, c: char, p: Option<nat>)
    requires st <= i < |def| && Tracks(def, st, i, c, p)
    ensures def[i] != c ==> Tracks(def, st, i + 1, c, p)
    ensures def[i] == c && p.None? ==> Tracks(def, st, i + 1, c, Some(i))
  {
  }

  /** A `c` that occurs at most once below `hi` is not repeated. */
  lemma {:induction false} NotRepeated(s: seq<char>, c: char, hi: nat)
    requires hi <= |s|
    requires forall y, z :: 0 <= y < z < hi && s[y] == c ==> s[z] != c
    ensures !Repeated(s, c, hi)
  {
    if hi > 0 {
      NotRepeated(s, c, hi - 1);
      if s[hi - 1] == c {
        assert forall y :: 0 <= y < hi - 1 ==> s[..hi - 1][y] == s[y] && s[y] != c;
      }
    }
  }

  /** The record of a whole entry determines how the reference reads its brackets. */
  lemma TracksComplete(def: seq<char>, st: nat, e: nat, c: char, p: Option<nat>)
    requires st <= e <= |def| && Tracks(def, st, e, c, p)
    ensures !Repeated(def[st..e], c, e - st)
    ensures FirstAt(def[st..e], c, e - st) == if p.Some? then Some(p.value - st) else None
  {
    var tok := def[st..e];
    assert forall j :: 0 <= j < |tok| ==> tok[j] == def[st + j];
    NotRepeated(tok, c, |tok|);
    if p.Some? {
      var x := p.value - st;
      assert forall j :: 0 <= j < x ==> tok[..x][j] == def[st + j];
      FirstAtIs(tok, c, |tok|, x);
    }
  }

  /** A second `c` in the requested entry makes it a repeated bracket. */
  lemma TracksDuplicate(def: seq<char>, st: nat, i: nat, e: nat, c: char, p: Option<nat>)
    requires st <= i < e <= |def| && Tracks(def, st, i, c, p)
    requires p.Some? && def[i] == c
    ensures Repeated(def[st..e], c, e - st)
  {
    var tok := def[st..e];
    var x := p.value - st;
    assert forall j :: 0 <= j < x ==> tok[..x][j] == def[st + j];
    FirstAtIs(tok, c, |tok|, x);
    assert tok[i - st] == c;
    SecondOccurrence(tok, c, |tok|, i - st);
  }

  lemma WalkEmpty(def: CStr, a: nat, k: nat, target: nat, total: u64, endLast: u64)
    requires a <= |def| && FirstStart(def, a, SegEnd(def, a)).None?
    ensures Walk(def, a, k, target, total, endLast) == Err(EmptyEntry)
  {
  }

  lemma WalkBeyondTarget(def: CStr, a: nat, k: nat, target: nat, total: u64, endLast: u64)
    requires a <= |def| && FirstStart(def, a, SegEnd(def, a)).Some? && k > target
    ensures Walk(def, a, k, target, total, endLast) == Err(IndexNotFound)
  {
  }

  /** An entry at or before the target whose brackets pass is placed. */
  lemma WalkReachesPlacement(def: CStr, a: nat, e: nat, k: nat, target: nat, total: u64, endLast: u64, st: nat)
    requires a <= |def| && e == SegEnd(def, a) && FirstStart(def, a, e) == Some(st) && k <= target
    requires k == target ==> !RepeatedBracket(def[st..e])
    ensures Walk(def, a, k, target, total, endLast) == WalkPlaced(def, a, st, e, k, target, total, endLast)
  {
    assert Walk(def, a, k, target, total, endLast) == WalkEntry(def, a, st, e, k, target, total, endLast);
  }

  /** An entry at or before the target whose size or offset is rejected ends the parse. */
  lemma WalkPlaceFails(def: CStr, a: nat, e: nat, k: nat, target: nat, total: u64, endLast: u64, st: nat, f: Failure)
    requires a <= |def| && e == SegEnd(def, a) && FirstStart(def, a, e) == Some(st) && k <= target
    requires k == target ==> !RepeatedBracket(def[st..e])
    requires PlaceEntry(def[st..e], endLast, total) == Err(f)
    ensures Walk(def, a, k, target, total, endLast) == Err(f)
  {
    WalkReachesPlacement(def, a, e, k, target, total, endLast, st);
  }

  /** The target entry, placed at `x`, yields its extent and its name. */
  lemma WalkTarget(def: CStr, a: nat, e: nat, k: nat, total: u64, endLast: u64, st: nat, x: Extent)
    requires a <= |def| && e == SegEnd(def, a) && FirstStart(def, a, e) == Some(st)
    requires !RepeatedBracket(def[st..e])
    requires PlaceEntry(def[st..e], endLast, total) == Ok(x)
    ensures Walk(def, a, k, k, total, endLast)
         == match EntryName(def[st..e])
            case Err(f) => Err(f)
            case Ok(name) => Ok(Found(x.offset, x.size, name))
  {
    WalkReachesPlacement(def, a, e, k, k, total, endLast, st);
  }

  /** An entry before the target, placed at `x`: the parse goes on with the next segment,
      or fails when there is none. */
  lemma WalkNext(def: CStr, a: nat, e: nat, k: nat, target: nat, total: u64, endLast: u64, st: nat, x: Extent)
    requires a <= |def| && e == SegEnd(def, a) && FirstStart(def, a, e) == Some(st) && k < target
    requires PlaceEntry(def[st..e], endLast, total) == Ok(x)
    ensures e == |def| ==> Walk(def, a, k, target, total, endLast) == Err(IndexNotFound)
    ensures e < |def| ==> Walk(def, a, k, target, total, endLast) == Walk(def, e + 1, k + 1, target, total, x.end)
  {
    WalkReachesPlacement(def, a, e, k, target, total, endLast, st);
  }

  /** A parse that succeeds passes through a placed entry of the first segment: it
      either is the target, or the parse goes on with the next segment. */
  lemma WalkOkStep(def: CStr, a: nat, k: nat, target: nat, total: u64, endLast: u64)
    returns (e: nat, st: nat, x: Extent)
    requires a <= |def| && Walk(def, a, k, target, total, endLast).Ok?
    ensures e == SegEnd(def, a) && a <= st < e <= |def| && FirstStart(def, a, e) == Some(st)
    ensures k <= target && PlaceEntry(def[st..e], endLast, total) == Ok(x)
    ensures k == target ==>
      EntryName(def[st..e]).Ok? &&
      Walk(def, a, k, target, total, endLast) == Ok(Found(x.offset, x.size, EntryName(def[st..e]).value))
    ensures k < target ==>
      e < |def| && Walk(def, a, k, target, total, endLast) == Walk(def, e + 1, k + 1, target, total, x.end)
  {
    e := SegEnd(def, a);
    if FirstStart(def, a, e).None? {
      WalkEmpty(def, a, k, target, total, endLast);
    }
    st := FirstStart(def, a, e).value;
    if k > target {
      WalkBeyondTarget(def, a, k, target, total, endLast);
    }
    if k == target && RepeatedBracket(def[st..e]) {
      WalkDuplicate(def, a, k, total, endLast, st);
    }
    WalkReachesPlacement(def, a, e, k, target, total, endLast, st);
    x := PlaceEntry(def[st..e], endLast, total).value;
  }

  lemma SliceOfSlice(s: seq<char>, a: nat, b: nat, x: nat, y: nat)
    requires a <= b <= |s| && x <= y <= b - a
    ensures s[a..b][x..y] == s[a + x..a + y]
  {
    forall j | 0 <= j < y - x
      ensures s[a..b][x..y][j] == s[a + x..a + y][j]
    {
    }
  }

  /** The arithmetic that closes an entry (part_env.c, lines 93-194): the size from `-`
      or from digits and a unit letter, the offset from the previous end, the clamp to
      the disk and the sector checks, in 64-bit arithmetic. This is the statement form
      of `PlaceEntry`, as the scanner's `switch` performs it. */
  method CloseEntry(tok: seq<char>, endLast: u64, total: u64) returns (r: Result<Extent, Failure>)
    requires |tok| > 0
    ensures r == PlaceEntry(tok, endLast, total)
  {
    var sizeThis: u64;
    if tok[0] == '-' {
      sizeThis := Wrap(total - endLast);
    } else if IsDigit(tok[0]) {
      var n := DigitRun(tok);
      sizeThis := Wrap(Value(tok[..n]));
      var m := SizeMultiplier(At(tok, n));
      if m.None? {
        return Err(InvalidSizeSuffix);
      }
      sizeThis := Wrap(sizeThis * m.value);
    } else {
      return Err(InvalidSize);
    }
    // no `@offset` is ever recorded, so the entry starts where the previous one ended
    var offsetThis := endLast;
    if offsetThis > total {
      offsetThis := total;
    }
    var end := Wrap(sizeThis + offsetThis);
    if end > total {
      sizeThis := Wrap(sizeThis - (end - total));
      end := total;
    }
    if sizeThis % SECTOR_SIZE != 0 {
      return Err(MisalignedSize);
    }
    if offsetThis % SECTOR_SIZE != 0 {
      return Err(MisalignedOffset);
    }
    return Ok(Extent(offsetThis, sizeThis, end));
  }

  /** The name of the requested entry from the recorded bracket positions (part_env.c,
      lines 196-212); the length is an `ulong`, so a `)` before the `(` is too long. */
  method CopyName(def: CStr, st: nat, e: nat, bracketLeft: Option<nat>, bracketRight: Option<nat>)
    returns (r: Result<Option<seq<char>>, Failure>)
    requires st <= e <= |def|
    requires Tracks(def, st, e, '(', bracketLeft) && Tracks(def, st, e, ')', bracketRight)
    ensures r == EntryName(def[st..e])
  {
    if bracketLeft.Some? && bracketRight.Some? {
      TrackedName(def, st, e, bracketLeft.value, bracketRight.value);
      var nameLen := Wrap(bracketRight.value as int - bracketLeft.value - 1);
      if nameLen >= PART_NAME_LEN {
        return Err(NameTooLong);
      }
      return Ok(Some(def[bracketLeft.value + 1..bracketRight.value]));
    }
    TracksComplete(def, st, e, '(', bracketLeft);
    TracksComplete(def, st, e, ')', bracketRight);
    ghost var tok := def[st..e];
    assert tok[..|tok|] == tok;
    if bracketLeft.Some? || bracketRight.Some? {
      return Err(UnpairedBracket);
    }
    return Ok(None);
  }

  /** With both brackets recorded, the name is what lies between them, unless it is too
      long for the name field. */
  lemma TrackedName(def: CStr, st: nat, e: nat, l: nat, rb: nat)
    requires st <= e <= |def|
    requires Tracks(def, st, e, '(', Some(l)) && Tracks(def, st, e, ')', Some(rb))
    ensures st <= l < e && st <= rb < e
    ensures EntryName(def[st..e])
         == if Wrap(rb as int - l - 1) >= PART_NAME_LEN then Err(NameTooLong)
            else Ok(Some(def[l + 1..rb]))
  {
    TracksComplete(def, st, e, '(', Some(l));
    TracksComplete(def, st, e, ')', Some(rb));
    ghost var tok := def[st..e];
    ghost var l', rb' := l - st, rb - st;
    NameAt(tok, l', rb');
    assert Wrap(rb' as int - l' - 1) == Wrap(rb as int - l - 1);
    if Wrap(rb as int - l - 1) < PART_NAME_LEN {
      SliceOfSlice(def, st, e, l' + 1, rb');
    }
  }


  /** The scanner's state inside the segment `[a, SegEnd(def, a))`, which holds entry
      number `k`, after reading up to `i`: `start` is where the entry begins (None while
      none has begun), `partId` counts the entries begun so far, and for the requested
      entry the bracket positions are recorded. */
  ghost predicate Scanning(def: seq<char>, a: nat, i: nat, k: nat, target: nat, start: Option<nat>,
                           partId: nat, parseThis: bool, bracketLeft: Option<nat>, bracketRight: Option<nat>)
    requires a <= i <= |def|
  {
    && start == FirstStart(def, a, i)
    && k == (if start.Some? then partId else partId + 1)
    && (start.None? ==> !parseThis)
    && (start.Some? ==> partId <= target && parseThis == (partId == target))
    && (parseThis ==> Tracks(def, start.value, i, '(', bracketLeft) && Tracks(def, start.value, i, ')', bracketRight))
  }

  /** Closing the entry that begins at `st` at the `,` or NUL at `e` that ends its segment
      (part_env.c, lines 89-266): its size and offset, then, for the requested entry, its
      name. `done` is set when the parse ends here with `r`; otherwise the entry ended
      at `endThis` and the parse goes on with the next segment. */
  method FinishEntry(def: CStr, ghost a: nat, e: nat, ghost k: nat, target: nat, total: u64, endLast: u64,
                     st: nat, parseThis: bool, bracketLeft: Option<nat>, bracketRight: Option<nat>)
    returns (done: bool, r: Result<Found, Failure>, endThis: u64)
    requires a <= e <= |def| && e == SegEnd(def, a)
    requires Scanning(def, a, e, k, target, Some(st), k, parseThis, bracketLeft, bracketRight)
    ensures parseThis ==> done
    ensures done ==> r == Walk(def, a, k, target, total, endLast)
    ensures !done ==> e < |def| && Walk(def, a, k, target, total, endLast) == Walk(def, e + 1, k + 1, target, total, endThis)
  {
    if parseThis {
      TracksComplete(def, st, e, '(', bracketLeft);
      TracksComplete(def, st, e, ')', bracketRight);
    }
    var placed := CloseEntry(def[st..e], endLast, total);
    if placed.Err? {
      WalkPlaceFails(def, a, e, k, target, total, endLast, st, placed.error);
      return true, Err(placed.error), endLast;
    }
    if parseThis {
      WalkTarget(def, a, e, k, total, endLast, st, placed.value);
      var name := CopyName(def, st, e, bracketLeft, bracketRight);
      if name.Err? {
        return true, Err(name.error), endLast;
      }
      return true, Ok(Found(placed.value.offset, placed.value.size, name.value)), endLast;
    }
    WalkNext(def, a, e, k, target, total, endLast, st, placed.value);
    if e == |def| {
      return true, Err(IndexNotFound), endLast;
    }
    return false, Err(IndexNotFound), placed.value.end;
  }

  /** Reading a character that does not end the segment (part_env.c, lines 241-268): a
      bracket of the requested entry is recorded, or ends the parse when it is the
      second of its kind; `@` is passed over; any other character begins an entry when
      none has begun, which ends the parse once the requested entry has been passed. */
  method ReadChar(def: CStr, ghost a: nat, i: nat, ghost k: nat, target: nat, ghost total: u64, ghost endLast: u64,
                  start: Option<nat>, partId: nat, parseThis: bool, bracketLeft: Option<nat>, bracketRight: Option<nat>)
    returns (stop: Option<Failure>, start': Option<nat>, partId': nat, parseThis': bool,
             bracketLeft': Option<nat>, bracketRight': Option<nat>)
    requires a <= i < |def| && i < SegEnd(def, a)
    requires Scanning(def, a, i, k, target, start, partId, parseThis, bracketLeft, bracketRight)
    ensures stop.Some? ==> Walk(def, a, k, target, total, endLast) == Err(stop.value)
    ensures stop.None? ==> Scanning(def, a, i + 1, k, target, start', partId', parseThis', bracketLeft', bracketRight')
  {
    stop, start', partId', parseThis', bracketLeft', bracketRight' :=
      None, start, partId, parseThis, bracketLeft, bracketRight;
    var c := def[i];
    if c == '(' || c == ')' {
      stop, bracketLeft', bracketRight' :=
        ReadBracket(def, a, i, k, target, total, endLast, start, partId, parseThis, bracketLeft, bracketRight);
    } else if c == '@' {
      // `offset_at` is never set, so an `@` changes nothing
      PassOver(def, a, i, k, target, start, partId, parseThis, bracketLeft, bracketRight);
    } else if start.None? {
      stop, start', partId', parseThis', bracketLeft', bracketRight' :=
        OpenEntry(def, a, i, k, target, total, endLast, partId, bracketLeft, bracketRight);
    } else {
      PassOver(def, a, i, k, target, start, partId, parseThis, bracketLeft, bracketRight);
    }
  }

  /** A character that neither opens an entry nor is a bracket of the requested entry
      leaves the scanner as it was. */
  lemma PassOver(def: seq<char>, a: nat, i: nat, k: nat, target: nat, start: Option<nat>,
                 partId: nat, parseThis: bool, bracketLeft: Option<nat>, bracketRight: Option<nat>)
    requires a <= i < |def| && i < SegEnd(def, a)
    requires Scanning(def, a, i, k, target, start, partId, parseThis, bracketLeft, bracketRight)
    requires start.Some? || !StartsEntry(def[i])
    requires parseThis ==> def[i] != '(' && def[i] != ')'
    ensures Scanning(def, a, i + 1, k, target, start, partId, parseThis, bracketLeft, bracketRight)
  {
    FirstStartStep(def, a, i);
    if parseThis {
      TracksStep(def, start.value, i, '(', bracketLeft);
      TracksStep(def, start.value, i, ')', bracketRight);
    }
  }

  /** A bracket inside the requested entry is recorded, or ends the parse when it is the
      second of its kind; elsewhere it is passed over. */
  method ReadBracket(def: CStr, ghost a: nat, i: nat, ghost k: nat, target: nat, ghost total: u64, ghost endLast: u64,
                     start: Option<nat>, partId: nat, parseThis: bool, bracketLeft: Option<nat>, bracketRight: Option<nat>)
    returns (stop: Option<Failure>, bracketLeft': Option<nat>, bracketRight': Option<nat>)
    requires a <= i < |def| && i < SegEnd(def, a) && (def[i] == '(' || def[i] == ')')
    requires Scanning(def, a, i, k, target, start, partId, parseThis, bracketLeft, bracketRight)
    ensures stop.Some? ==> Walk(def, a, k, target, total, endLast) == Err(stop.value)
    ensures stop.None? ==> Scanning(def, a, i + 1, k, target, start, partId, parseThis, bracketLeft', bracketRight')
  {
    stop, bracketLeft', bracketRight' := None, bracketLeft, bracketRight;
    if !parseThis {
      PassOver(def, a, i, k, target, start, partId, parseThis, bracketLeft, bracketRight);
      return;
    }
    ghost var e := SegEnd(def, a);
    FirstStartStep(def, a, i);
    TracksStep(def, start.value, i, '(', bracketLeft);
    TracksStep(def, start.value, i, ')', bracketRight);
    if def[i] == '(' {
      if bracketLeft.Some? {
        FirstStartGrows(def, a, i, e);
        TracksDuplicate(def, start.value, i, e, '(', bracketLeft);
        WalkDuplicate(def, a, k, total, endLast, start.value);
        return Some(DuplicateBracket), bracketLeft', bracketRight';
      }
      bracketLeft' := Some(i);
    } else {
      if bracketRight.Some? {
        FirstStartGrows(def, a, i, e);
        TracksDuplicate(def, start.value, i, e, ')', bracketRight);
        WalkDuplicate(def, a, k, total, endLast, start.value);
        return Some(DuplicateBracket), bracketLeft', bracketRight';
      }
      bracketRight' := Some(i);
    }
  }

  /** The first character of an entry: the entry counter moves on, and the parse ends
      once it passes the requested entry; reaching it starts recording brackets. */
  method OpenEntry(def: CStr, ghost a: nat, i: nat, ghost k: nat, target: nat, ghost total: u64, ghost endLast: u64,
                   partId: nat, bracketLeft: Option<nat>, bracketRight: Option<nat>)
    returns (stop: Option<Failure>, start': Option<nat>, partId': nat, parseThis': bool,
             bracketLeft': Option<nat>, bracketRight': Option<nat>)
    requires a <= i < |def| && i < SegEnd(def, a) && StartsEntry(def[i])
    requires Scanning(def, a, i, k, target, None, partId, false, bracketLeft, bracketRight)
    ensures stop.Some? ==> Walk(def, a, k, target, total, endLast) == Err(stop.value)
    ensures stop.None? ==> Scanning(def, a, i + 1, k, target, start', partId', parseThis', bracketLeft', bracketRight')
  {
    ghost var e := SegEnd(def, a);
    FirstStartStep(def, a, i);
    FirstStartGrows(def, a, i + 1, e);
    stop, start', bracketLeft', bracketRight' := None, Some(i), bracketLeft, bracketRight;
    partId' := partId + 1;
    if partId' > target {
      WalkBeyondTarget(def, a, k, target, total, endLast);
      return Some(IndexNotFound), start', partId', false, bracketLeft', bracketRight';
    }
    if partId' == target {
      parseThis' := true;
      bracketLeft' := None;
      bracketRight' := None;
      TracksStep(def, i, i, '(', None);
      TracksStep(def, i, i, ')', None);
    } else {
      parseThis' := false;
    }
  }


  /** A `,` or the terminator at `i` closes the segment: an empty one is an error, and
      otherwise the entry is finished and, unless that decides the parse, the scan goes on
      with a fresh segment after `i`. */
  method CloseSegment(def: CStr, ghost a: nat, i: nat, ghost k: nat, target: nat, total: u64, endLast: u64,
                      start: Option<nat>, partId: nat, parseThis: bool,
                      bracketLeft: Option<nat>, bracketRight: Option<nat>)
    returns (done: bool, r: Result<Found, Failure>, endThis: u64)
    requires a <= i <= |def| && i == SegEnd(def, a)
    requires Scanning(def, a, i, k, target, start, partId, parseThis, bracketLeft, bracketRight)
    ensures done ==> r == Walk(def, a, k, target, total, endLast)
    ensures !done ==>
      i < |def| && Walk(def, a, k, target, total, endLast) == Walk(def, i + 1, k + 1, target, total, endThis) &&
      Scanning(def, i + 1, i + 1, k + 1, target, None, partId, parseThis, bracketLeft, bracketRight)
  {
    if start.None? {
      // the source reads through a NULL entry start here
      WalkEmpty(def, a, k, target, total, endLast);
      return true, Err(EmptyEntry), endLast;
    }
    done, r, endThis := FinishEntry(def, a, i, k, target, total, endLast, start.value, parseThis, bracketLeft, bracketRight);
    if !done {
      assert FirstStart(def, i + 1, i + 1) == None;
    }
  }

  /** The scanner of `part_get_definition_part`: one pass over the characters and the
      terminating NUL, counting entries, carrying the end of the previous entry, and
      closing each entry at the `,` or NUL that ends it. Positions stand for the
      source's pointers; `None` for NULL. */
  method Scan(def: CStr, part: int32, total: u64) returns (r: Result<Found, Failure>)
    ensures r == Resolve(def, part, total)
  {
    var target := ToUnsigned(part);
    var start: Option<nat> := None;           // part_definition_start
    var bracketLeft: Option<nat> := None;
    var bracketRight: Option<nat> := None;
    var partId: nat := 0;
    var parseThis := false;
    var endLast: u64 := 0;
    ghost var segA: nat := 0;                 // where the current segment begins
    ghost var k: nat := 1;                    // the number of the entry it holds
    ghost var outcome := Walk(def, 0, 1, target, total, 0);
    var i: nat := 0;
    while true
      invariant segA <= i <= |def| && i <= SegEnd(def, segA)
      invariant Scanning(def, segA, i, k, target, start, partId, parseThis, bracketLeft, bracketRight)
      invariant outcome == Walk(def, segA, k, target, total, endLast)
      decreases |def| - i
    {
      var c := if i < |def| then def[i] else '\0';
      if c == ',' || c == '\0' {
        assert i == SegEnd(def, segA);
        var done, closed, endThis :=
          CloseSegment(def, segA, i, k, target, total, endLast, start, partId, parseThis, bracketLeft, bracketRight);
        if done {
          return closed;
        }
        endLast := endThis;
        start := None;
        segA := i + 1;
        k := k + 1;
      } else {
        var stop;
        stop, start, partId, parseThis, bracketLeft, bracketRight :=
          ReadChar(def, segA, i, k, target, total, endLast, start, partId, parseThis, bracketLeft, bracketRight);
        if stop.Some? {
          return Err(stop.value);
        }
      }
      i := i + 1;
    }
  }
}
