/** One entry of a partition definition such as `880K(bootloader)`, taken from its first
    character up to (not including) the `,` or NUL that closes it: how its size is read,
    where it is placed after the previous entry, how it is clamped to the disk, and its name. */
module Entry {
  import opened CTypes
  import opened Decimal

  /** Offsets and sizes must be multiples of this many bytes. */
  const SECTOR_SIZE: nat := 512

  /** Capacity of the name field of a partition descriptor, terminator included. */
  const PART_NAME_LEN: nat := 32

  /** Why a definition does not yield the requested partition. The source reports
      every one of them as -1; they are told apart here so that properties can name them. */
  datatype Failure =
    | NoDefinition       // no definition string could be located for the device
    | EmptyEntry         // an entry closes before it has begun (the source reads through NULL)
    | InvalidSize        // an entry starts with neither '-' nor a digit
    | InvalidSizeSuffix  // the character after a size's digits is not accepted
    | MisalignedSize
    | MisalignedOffset
    | UnpairedBracket
    | DuplicateBracket
    | NameTooLong
    | IndexNotFound

  /** Where an entry lies on the disk, in bytes, and the running end it leaves behind. */
  datatype Extent = Extent(offset: u64, size: u64, end: u64)

  /** The character at `i`, or NUL past the end (the terminator of a C string). */
  function At(s: seq<char>, i: nat): char {
    if i < |s| then s[i] else '\0'
  }

  /** The power of 1024 that a binary unit letter stands for. */
  function UnitExponent(c: char): Option<nat> {
    match c
    case 'K' | 'k' => Some(1)
    case 'M' | 'm' => Some(2)
    case 'G' | 'g' => Some(3)
    case 'T' | 't' => Some(4)
    case 'P' | 'p' => Some(5)
    case 'E' | 'e' => Some(6)
    case _ => None
  }

  /** Characters that may follow the digits of a plain byte count. */
  predicate PlainTerminator(c: char) {
    c == '@' || c == ',' || c == '(' || c == '\0'
  }

  function Pow(b: nat, n: nat): nat {
    if n == 0 then 1 else b * Pow(b, n - 1)
  }

  /** The factor that the character after a size's digits applies, or None when the
      character is rejected. */
  function SizeMultiplier(c: char): (m: Option<nat>)
    ensures m.Some? <==> UnitExponent(c).Some? || PlainTerminator(c)
  {
    match c
    case 'K' | 'k' => Some(0x400)
    case 'M' | 'm' => Some(0x10_0000)
    case 'G' | 'g' => Some(0x4000_0000)
    case 'T' | 't' => Some(0x100_0000_0000)
    case 'P' | 'p' => Some(0x4_0000_0000_0000)
    case 'E' | 'e' => Some(0x1000_0000_0000_0000)
    case '@' | ',' | '(' | '\0' => Some(1)
    case _ => None
  }

  /** Each unit letter multiplies by its power of 1024; a plain terminator by 1. */
  lemma MultiplierIsPowerOf1024(c: char)
    ensures UnitExponent(c).Some? ==> SizeMultiplier(c) == Some(Pow(1024, UnitExponent(c).value))
    ensures PlainTerminator(c) ==> SizeMultiplier(c) == Some(1)
  {
    assert Pow(1024, 1) == 0x400;
    assert Pow(1024, 2) == 0x10_0000;
    assert Pow(1024, 3) == 0x4000_0000;
    assert Pow(1024, 4) == 0x100_0000_0000;
    assert Pow(1024, 5) == 0x4_0000_0000_0000;
    assert Pow(1024, 6) == 0x1000_0000_0000_0000;
  }

  /** The size in bytes an entry asks for, before clamping. `endLast` is where the
      previous entry ended; `total` is the capacity of the disk. */
  function EntrySize(tok: seq<char>, endLast: u64, total: u64): (r: Result<u64, Failure>)
    requires |tok| > 0
    ensures r.Err? ==> r.error == InvalidSize || r.error == InvalidSizeSuffix
    ensures r == Err(InvalidSize) <==> tok[0] != '-' && !IsDigit(tok[0])
  {
    if tok[0] == '-' then
      Ok(Wrap(total - endLast))
    else if IsDigit(tok[0]) then
      var n := DigitRun(tok);
      var value := Wrap(Value(tok[..n]));
      match SizeMultiplier(At(tok, n))
      case None => Err(InvalidSizeSuffix)
      case Some(m) => Ok(Wrap(value * m))
    else
      Err(InvalidSize)
  }

  /** Multiplying after a wrapped parse is the same as wrapping the exact product. */
  lemma WrapMul(v: int, m: nat)
    ensures Wrap(Wrap(v) * m) == Wrap(v * m)
  {
    var q := v / ULONG_MODULUS;
    var w := Wrap(v);
    assert v == q * ULONG_MODULUS + w;
    var k := q * m;
    calc {
      v * m;
      (q * ULONG_MODULUS + w) * m;
      k * ULONG_MODULUS + w * m;
    }
    ModShift(w * m, k);
  }

  lemma ModShift(x: int, k: int)
    ensures (x + k * ULONG_MODULUS) % ULONG_MODULUS == x % ULONG_MODULUS
  {
  }

  /** A size written as digits followed by a unit letter is that number times the
      unit's power of 1024, in 64-bit arithmetic; nothing after the letter is read. */
  lemma SizeWithUnit(digits: seq<char>, unit: char, rest: seq<char>, endLast: u64, total: u64)
    requires |digits| > 0 && AllDigits(digits)
    requires UnitExponent(unit).Some?
    ensures EntrySize(digits + [unit] + rest, endLast, total)
         == Ok(Wrap(Value(digits) * Pow(1024, UnitExponent(unit).value)))
  {
    MultiplierIsPowerOf1024(unit);
    SizeWithMultiplier(digits, unit, rest, SizeMultiplier(unit).value, endLast, total);
  }

  lemma SizeWithMultiplier(digits: seq<char>, c: char, rest: seq<char>, m: nat, endLast: u64, total: u64)
    requires |digits| > 0 && AllDigits(digits) && !IsDigit(c)
    requires SizeMultiplier(c) == Some(m)
    ensures EntrySize(digits + [c] + rest, endLast, total) == Ok(Wrap(Value(digits) * m))
  {
    var tok := digits + [c] + rest;
    DigitsThenChar(digits, c, rest);
    ScaledSize(tok, |digits|, m, endLast, total);
    WrapMul(Value(digits), m);
  }

  lemma DigitsThenChar(digits: seq<char>, c: char, rest: seq<char>)
    requires AllDigits(digits) && !IsDigit(c)
    ensures DigitRun(digits + [c] + rest) == |digits|
    ensures (digits + [c] + rest)[..|digits|] == digits
    ensures At(digits + [c] + rest, |digits|) == c
  {
    assert digits + [c] + rest == digits + ([c] + rest);
    DigitRunStopsAfterDigits(digits, [c] + rest);
  }

  lemma ScaledSize(tok: seq<char>, n: nat, m: nat, endLast: u64, total: u64)
    requires 0 < n <= |tok| && DigitRun(tok) == n
    requires SizeMultiplier(At(tok, n)) == Some(m)
    ensures EntrySize(tok, endLast, total) == Ok(Wrap(Wrap(Value(tok[..n])) * m))
  {
  }

  /** Digits followed by nothing, `@` or `(` are a plain byte count. */
  lemma SizeInBytes(digits: seq<char>, rest: seq<char>, endLast: u64, total: u64)
    requires |digits| > 0 && AllDigits(digits)
    requires rest == [] || PlainTerminator(rest[0])
    ensures EntrySize(digits + rest, endLast, total) == Ok(Wrap(Value(digits)))
  {
    var tok := digits + rest;
    assert DigitRun(tok) == |digits| && tok[..|digits|] == digits && At(tok, |digits|) == At(rest, 0) by {
      DigitRunStopsAfterDigits(digits, rest);
    }
    assert SizeMultiplier(At(rest, 0)) == Some(1) by {
      MultiplierIsPowerOf1024(At(rest, 0));
    }
    calc {
      EntrySize(tok, endLast, total);
      { assert IsDigit(tok[0]) && tok[0] != '-'; }
      Ok(Wrap(Wrap(Value(digits)) * 1));
      Ok(Wrap(Value(digits)));
    }
  }

  /** Any other character right after the digits makes the size invalid. */
  lemma SizeWithBadSuffix(digits: seq<char>, c: char, rest: seq<char>, endLast: u64, total: u64)
    requires |digits| > 0 && AllDigits(digits)
    requires !IsDigit(c) && UnitExponent(c).None? && !PlainTerminator(c)
    ensures EntrySize(digits + [c] + rest, endLast, total) == Err(InvalidSizeSuffix)
  {
    DigitsThenChar(digits, c, rest);
  }

  /** Places an entry at the end of the previous one, clamps it to the disk, and checks
      that its size and offset are whole sectors. */
  function PlaceEntry(tok: seq<char>, endLast: u64, total: u64): (r: Result<Extent, Failure>)
    requires |tok| > 0
    ensures r.Err? ==> r.error in {InvalidSize, InvalidSizeSuffix, MisalignedSize, MisalignedOffset}
    ensures EntrySize(tok, endLast, total).Err? ==> r == Err(EntrySize(tok, endLast, total).error)
    // on success: whole sectors, on the disk, and the running end is offset + size in 64 bits
    ensures r.Ok? ==> r.value.offset % SECTOR_SIZE == 0 && r.value.size % SECTOR_SIZE == 0
    ensures r.Ok? ==> r.value.offset <= total && r.value.end <= total
    ensures r.Ok? ==> r.value.end == Wrap(r.value.offset + r.value.size)
    ensures r.Ok? ==> r.value.end % SECTOR_SIZE == 0
    // the offset is the previous end; the `-` entry reaches exactly to the end of the disk
    ensures r.Ok? && endLast <= total ==> r.value.offset == endLast
    ensures r.Ok? && tok[0] == '-' && endLast <= total ==> r.value.offset + r.value.size == total
    // an overrun is clamped, never reported: the size shrinks to what remains
    ensures r.Ok? ==> var asked := EntrySize(tok, endLast, total).value;
                      r.value.size <= asked &&
                      (r.value.size == asked || r.value.offset + r.value.size == total)
    ensures endLast <= total && endLast % SECTOR_SIZE == 0 ==> r != Err(MisalignedOffset)
    // after an aligned previous end on the disk, an entry whose size parses is accepted
    // exactly when its size, shrunk to the room left where it overruns, is whole sectors
    ensures EntrySize(tok, endLast, total).Ok? && endLast <= total && endLast % SECTOR_SIZE == 0 ==>
              var asked := EntrySize(tok, endLast, total).value;
              var size := if Wrap(asked + endLast) > total then total - endLast else asked;
              r == if size % SECTOR_SIZE == 0 then Ok(Extent(endLast, size, Wrap(endLast + size)))
                   else Err(MisalignedSize)
  {
    match EntrySize(tok, endLast, total)
    case Err(e) => Err(e)
    case Ok(asked) =>
      var offset: u64 := if endLast > total then total else endLast;
      var end0 := Wrap(asked + offset);
      var size := if end0 > total then Wrap(asked - (end0 - total)) else asked;
      var end := if end0 > total then total else end0;
      ClampedEnd(asked, offset, total);
      if size % SECTOR_SIZE != 0 then Err(MisalignedSize)
      else if offset % SECTOR_SIZE != 0 then Err(MisalignedOffset)
      else
        AlignedEnd(offset, size);
        Ok(Extent(offset, size, end))
  }

  /** The clamp of an overrunning entry leaves it ending exactly at the disk's end. */
  lemma ClampedEnd(asked: u64, offset: u64, total: u64)
    requires offset <= total
    ensures var end0 := Wrap(asked + offset);
            end0 > total ==> Wrap(asked - (end0 - total)) == total - offset
  {
  }

  lemma AlignedEnd(offset: u64, size: u64)
    requires offset % SECTOR_SIZE == 0 && size % SECTOR_SIZE == 0
    ensures Wrap(offset + size) % SECTOR_SIZE == 0
  {
  }

  /** The first position below `hi` where `c` occurs. */
  function FirstAt(s: seq<char>, c: char, hi: nat): (r: Option<nat>)
    requires hi <= |s|
    ensures r.Some? ==> r.value < hi && s[r.value] == c && c !in s[..r.value]
    ensures r.None? ==> c !in s[..hi]
  {
    if hi == 0 then None
    else
      assert s[..hi] == s[..hi - 1] + [s[hi - 1]];
      match FirstAt(s, c, hi - 1)
      case Some(x) => Some(x)
      case None => if s[hi - 1] == c then Some(hi - 1) else None
  }

  /** Whether `c` occurs at least twice below `hi`. */
  predicate Repeated(s: seq<char>, c: char, hi: nat)
    requires hi <= |s|
  {
    hi > 0 && (Repeated(s, c, hi - 1) || (s[hi - 1] == c && c in s[..hi - 1]))
  }

  lemma {:induction false} RepeatedGrows(s: seq<char>, c: char, lo: nat, hi: nat)
    requires lo <= hi <= |s|
    requires Repeated(s, c, lo)
    ensures Repeated(s, c, hi)
    decreases hi - lo
  {
    if lo < hi {
      RepeatedGrows(s, c, lo + 1, hi);
    }
  }

  /** A second occurrence after the first one is a repetition. */
  lemma {:induction false} SecondOccurrence(s: seq<char>, c: char, hi: nat, y: nat)
    requires hi <= |s|
    requires FirstAt(s, c, hi).Some? && FirstAt(s, c, hi).value < y < hi && s[y] == c
    ensures Repeated(s, c, hi)
  {
    var x := FirstAt(s, c, hi).value;
    assert s[..y][x] == c;
    assert Repeated(s, c, y + 1);
    RepeatedGrows(s, c, y + 1, hi);
  }

  /** A bracket character of the entry occurs twice. */
  predicate RepeatedBracket(tok: seq<char>) {
    Repeated(tok, '(', |tok|) || Repeated(tok, ')', |tok|)
  }

  /** The name of the requested entry: `None` when it has no brackets (the name field is then
      left as it was), the text strictly between `(` and `)` otherwise. The length is computed
      as `ulong`, so a `)` before the `(` reads as an enormous length. */
  function EntryName(tok: seq<char>): (r: Result<Option<seq<char>>, Failure>)
    requires |tok| < 0x8000_0000_0000_0000
    ensures r.Err? ==> r.error == UnpairedBracket || r.error == NameTooLong
    ensures r == Ok(None) <==> '(' !in tok && ')' !in tok
    ensures r == Err(UnpairedBracket) <==> ('(' in tok) != (')' in tok)
    ensures r.Ok? && r.value.Some? ==> |r.value.value| < PART_NAME_LEN && ')' !in r.value.value
  {
    assert tok[..|tok|] == tok;
    match (FirstAt(tok, '(', |tok|), FirstAt(tok, ')', |tok|))
    case (Some(l), Some(rb)) =>
      if Wrap(rb as int - l - 1) >= PART_NAME_LEN then Err(NameTooLong)
      else
        assert tok[l + 1..rb] == tok[..rb][l + 1..];
        Ok(Some(tok[l + 1..rb]))
    case (Some(_), None) => Err(UnpairedBracket)
    case (None, Some(_)) => Err(UnpairedBracket)
    case (None, None) => Ok(None)
  }

  /** A name between the entry's first `(` and first `)` is returned exactly, when it fits. */
  lemma NameBetweenBrackets(pre: seq<char>, name: seq<char>, post: seq<char>)
    requires '(' !in pre && ')' !in pre && '(' !in name && ')' !in name
    requires |pre| + |name| + |post| + 2 < 0x8000_0000_0000_0000
    ensures EntryName(pre + ['('] + name + [')'] + post)
         == if |name| < PART_NAME_LEN then Ok(Some(name)) else Err(NameTooLong)
  {
    var tok := pre + ['('] + name + [')'] + post;
    var l, rb := |pre|, |pre| + 1 + |name|;
    assert tok[..l] == pre;
    assert tok[..rb] == pre + ['('] + name;
    assert tok[l + 1..rb] == name;
    assert FirstAt(tok, '(', |tok|) == Some(l) by { FirstAtIs(tok, '(', |tok|, l); }
    assert FirstAt(tok, ')', |tok|) == Some(rb) by { FirstAtIs(tok, ')', |tok|, rb); }
  }

  /** A `)` that comes before the `(` is reported as an over-long name. */
  lemma ReversedBrackets(pre: seq<char>, mid: seq<char>, post: seq<char>)
    requires '(' !in pre && ')' !in pre && '(' !in mid
    requires |pre| + |mid| + |post| + 2 < 0x8000_0000_0000_0000
    ensures EntryName(pre + [')'] + mid + ['('] + post) == Err(NameTooLong)
  {
    var tok := pre + [')'] + mid + ['('] + post;
    var rb, l := |pre|, |pre| + 1 + |mid|;
    assert tok[..rb] == pre;
    assert tok[..l] == pre + [')'] + mid;
    assert FirstAt(tok, '(', |tok|) == Some(l) by { FirstAtIs(tok, '(', |tok|, l); }
    assert FirstAt(tok, ')', |tok|) == Some(rb) by { FirstAtIs(tok, ')', |tok|, rb); }
  }

  lemma FirstAtIs(s: seq<char>, c: char, hi: nat, x: nat)
    requires x < hi <= |s| && s[x] == c && c !in s[..x]
    ensures FirstAt(s, c, hi) == Some(x)
  {
    assert s[..hi][x] == c;
    var y := FirstAt(s, c, hi).value;
    assert forall j :: 0 <= j < x ==> s[..x][j] == s[j];
    assert forall j :: 0 <= j < y ==> s[..y][j] == s[j];
  }

  /** The name of an entry whose first brackets are at `l` and `rb`. */
  lemma NameAt(tok: seq<char>, l: nat, rb: nat)
    requires |tok| < 0x8000_0000_0000_0000
    requires FirstAt(tok, '(', |tok|) == Some(l) && FirstAt(tok, ')', |tok|) == Some(rb)
    ensures l < |tok| && rb < |tok|
    ensures EntryName(tok)
         == if Wrap(rb as int - l - 1) >= PART_NAME_LEN then Err(NameTooLong)
            else Ok(Some(tok[l + 1..rb]))
  {
    assert tok[..|tok|] == tok;
  }

  /** Every character of a name is a character of its entry. */
  lemma NameCharsFromEntry(tok: seq<char>, ch: char)
    requires |tok| < 0x8000_0000_0000_0000
    requires EntryName(tok).Ok? && EntryName(tok).value.Some?
    requires ch !in tok
    ensures ch !in EntryName(tok).value.value
  {
    var l := FirstAt(tok, '(', |tok|).value;
    var rb := FirstAt(tok, ')', |tok|).value;
    var name := EntryName(tok).value.value;
    assert name == tok[l + 1..rb];
  }

  /** When the entry's brackets are not repeated, its name holds no bracket at all. */
  lemma NameHasNoBrackets(tok: seq<char>)
    requires |tok| < 0x8000_0000_0000_0000
    requires !RepeatedBracket(tok)
    requires EntryName(tok).Ok? && EntryName(tok).value.Some?
    ensures '(' !in EntryName(tok).value.value && ')' !in EntryName(tok).value.value
  {
    var l := FirstAt(tok, '(', |tok|).value;
    var rb := FirstAt(tok, ')', |tok|).value;
    var name := EntryName(tok).value.value;
    assert name == tok[l + 1..rb];
    if '(' in name {
      var j :| 0 <= j < |name| && name[j] == '(';
      SecondOccurrence(tok, '(', |tok|, l + 1 + j);
    }
  }
}
