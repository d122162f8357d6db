/** Concrete definitions and what they resolve to. */
module Scenarios {
  import opened CTypes
  import opened Decimal
  import opened Entry
  import opened Definition

  const EIB: nat := 0x1000_0000_0000_0000

  lemma SizeOfExabytes(digits: string, n: nat, endLast: u64, total: u64)
    requires |digits| > 0 && AllDigits(digits) && Value(digits) == n
    ensures EntrySize(digits + ['E'], endLast, total) == Ok(Wrap(n * EIB))
  {
    SizeWithMultiplier(digits, 'E', [], EIB, endLast, total);
    assert digits + ['E'] + [] == digits + ['E'];
  }

  /** The size is read as decimal digits only: in `0x400` the digit `0` is followed by
      `x`, which is not an accepted suffix. */
  lemma HexPrefixRejected(endLast: u64, total: u64)
    ensures EntrySize("0x400", endLast, total) == Err(InvalidSizeSuffix)
  {
    SizeWithBadSuffix("0", 'x', "400", endLast, total);
    assert "0" + ['x'] + "400" == "0x400";
  }

  const WRAP_DEF: CStr := "4E,15E"

  /** `4E` takes the first 4 EiB of a 4 EiB disk and leaves the running end there. */
  lemma WrapFirstEntry()
    ensures Walk(WRAP_DEF, 0, 1, 2, 4 * EIB, 0) == Walk(WRAP_DEF, 3, 2, 2, 4 * EIB, 4 * EIB)
  {
    var def := WRAP_DEF;
    var total: u64 := 4 * EIB;
    assert SegEnd(def, 0) == 2;
    assert FirstStart(def, 0, 2) == Some(0);
    assert def[0..2] == "4" + ['E'];
    SizeOfExabytes("4", 4, 0, total);
    assert PlaceEntry(def[0..2], 0, total) == Ok(Extent(0, 4 * EIB, 4 * EIB));
    WalkNext(def, 0, 2, 1, 2, total, 0, 0, Extent(0, 4 * EIB, 4 * EIB));
  }

  /** `15E` then asks for 15 EiB from 4 EiB on: the 64-bit end wraps to 3 EiB, which
      lies on the disk, so nothing is clamped. */
  lemma WrapSecondEntry()
    ensures Walk(WRAP_DEF, 3, 2, 2, 4 * EIB, 4 * EIB) == Ok(Found(4 * EIB, 15 * EIB, None))
  {
    var def := WRAP_DEF;
    var total: u64 := 4 * EIB;
    assert SegEnd(def, 3) == 6;
    assert FirstStart(def, 3, 6) == Some(3);
    var tok := def[3..6];
    assert tok == "15" + ['E'];
    assert Value("15") == 15;
    SizeOfExabytes("15", 15, 4 * EIB, total);
    assert Wrap(15 * EIB + 4 * EIB) == 3 * EIB;
    assert PlaceEntry(tok, 4 * EIB, total) == Ok(Extent(4 * EIB, 15 * EIB, 3 * EIB));
    assert tok[0] == '1' && tok[1] == '5' && tok[2] == 'E';
    NotRepeated(tok, '(', 3);
    NotRepeated(tok, ')', 3);
    assert EntryName(tok) == Ok(None);
    WalkTarget(def, 3, 6, 2, total, 4 * EIB, 3, Extent(4 * EIB, 15 * EIB, 3 * EIB));
  }

  /** The running end is an `ulong` sum, so an entry whose end passes 2^64 wraps around and
      is not clamped: on a disk of 4 EiB, `4E,15E` yields a second partition that starts
      at 4 EiB and is 15 EiB long, far past the end of the disk. */
  lemma WrappedEndEscapesClamp()
    ensures Resolve(WRAP_DEF, 2, 4 * EIB) == Ok(Found(4 * EIB, 15 * EIB, None))
    ensures var p := Resolve(WRAP_DEF, 2, 4 * EIB).value; p.offset + p.size > 4 * EIB
  {
    WrapFirstEntry();
    WrapSecondEntry();
  }

  const KIB: nat := 0x400
  const MIB: nat := 0x10_0000
  const BRACKETS_DEF: CStr := "1K((x,2K(y)"

  /** The first entry carries two `(`, but it is not the one asked for: its brackets are
      never looked at, and it only moves the running end to 1 KiB. */
  lemma BracketsFirstEntry()
    ensures Walk(BRACKETS_DEF, 0, 1, 2, MIB, 0) == Walk(BRACKETS_DEF, 6, 2, 2, MIB, KIB)
  {
    var def := BRACKETS_DEF;
    assert SegEnd(def, 0) == 5;
    assert FirstStart(def, 0, 5) == Some(0);
    assert def[0..5] == "1" + ['K'] + "((x";
    assert Value("1") == 1;
    SizeWithUnit("1", 'K', "((x", 0, MIB);
    assert PlaceEntry(def[0..5], 0, MIB) == Ok(Extent(0, KIB, KIB));
    WalkNext(def, 0, 5, 1, 2, MIB, 0, 0, Extent(0, KIB, KIB));
  }

  /** The second entry is the one asked for: 2 KiB from 1 KiB on, named `y`. */
  lemma BracketsSecondEntry()
    ensures Walk(BRACKETS_DEF, 6, 2, 2, MIB, KIB) == Ok(Found(KIB, 2 * KIB, Some("y")))
  {
    var def := BRACKETS_DEF;
    assert SegEnd(def, 6) == 11;
    assert FirstStart(def, 6, 11) == Some(6);
    var tok := def[6..11];
    assert tok == "2" + ['K'] + "(y)";
    assert Value("2") == 2;
    SizeWithUnit("2", 'K', "(y)", KIB, MIB);
    assert PlaceEntry(tok, KIB, MIB) == Ok(Extent(KIB, 2 * KIB, 3 * KIB));
    NameOfSecondEntry(tok);
    WalkTarget(def, 6, 11, 2, MIB, KIB, 6, Extent(KIB, 2 * KIB, 3 * KIB));
  }

  lemma NameOfSecondEntry(tok: seq<char>)
    requires tok == "2K(y)"
    ensures !RepeatedBracket(tok) && EntryName(tok) == Ok(Some("y"))
  {
    assert tok[2] == '(' && tok[4] == ')';
    assert FirstAt(tok, '(', 5) == Some(2);
    assert FirstAt(tok, ')', 5) == Some(4);
    NameAt(tok, 2, 4);
    assert tok[3..4] == "y";
    NotRepeated(tok, '(', 5);
    NotRepeated(tok, ')', 5);
  }

  /** Brackets matter only in the requested entry: in `1K((x,2K(y)` the doubled `(` of
      the first entry does not stop partition 2 from being found. */
  lemma OtherEntriesBracketsIgnored()
    ensures Resolve(BRACKETS_DEF, 2, MIB) == Ok(Found(KIB, 2 * KIB, Some("y")))
    ensures RepeatedBracket(BRACKETS_DEF[0..5])
  {
    BracketsFirstEntry();
    BracketsSecondEntry();
    FirstEntryRepeatsBracket(BRACKETS_DEF[0..5]);
  }

  lemma FirstEntryRepeatsBracket(first: seq<char>)
    requires first == "1K((x"
    ensures RepeatedBracket(first)
  {
    assert first[3] == '(' && first[..3][2] == '(';
    assert Repeated(first, '(', 4);
    RepeatedGrows(first, '(', 4, 5);
  }
}
