/** Where a device's partition definition comes from: only the user area of an MMC
    device is eligible, and its definition is the environment variable named
    `envparts_` followed by the uclass name and the device number. */
module Locator {
  import opened CTypes
  import opened Decimal

  const KEY_PREFIX: string := "envparts_"
  /** Size of the key buffer, terminator included. */
  const KEY_MAX_LEN: nat := 32
  /** Room `snprintf` is given after the prefix, terminator included. */
  const KEY_SUFFIX_MAX_LEN: nat := KEY_MAX_LEN - |KEY_PREFIX|

  datatype UclassId = UclassMmc | UclassOther(id: int)

  /** The fields of a block device descriptor that the parser reads. */
  datatype BlkDesc = BlkDesc(uclassId: UclassId, hwpart: int, devnum: int32, lba: u64, blksz: u64)

  /** What the rest of the system answers: `blk_get_uclass_name` (a uclass missing from
      `uclassNames` has no name) and `env_get` (a key missing from `env` is unset). */
  datatype Board = Board(uclassNames: map<UclassId, CStr>, env: map<CStr, CStr>)

  /** The text `"%s%d"` prints for a uclass name and a device number. */
  function KeyText(uclassName: CStr, devnum: int32): seq<char> {
    uclassName + FormatInt(devnum)
  }

  /** The key buffer after `snprintf` wrote `"%s%d"` behind the prefix: the text is cut
      to what fits before the terminator. */
  function EnvKey(uclassName: CStr, devnum: int32): (key: CStr)
    ensures |KEY_PREFIX| <= |key| < KEY_MAX_LEN
    ensures key[..|KEY_PREFIX|] == KEY_PREFIX
    ensures key[|KEY_PREFIX|..] <= KeyText(uclassName, devnum)
    ensures key == KEY_PREFIX + KeyText(uclassName, devnum) || |key| == KEY_MAX_LEN - 1
  {
    var text := KeyText(uclassName, devnum);
    var kept := if |text| < KEY_SUFFIX_MAX_LEN then text else text[..KEY_SUFFIX_MAX_LEN - 1];
    assert (KEY_PREFIX + kept)[|KEY_PREFIX|..] == kept;
    KEY_PREFIX + kept
  }

  /** The device is the user area of an MMC device whose uclass has an acceptable name. */
  predicate Eligible(dev: BlkDesc, board: Board) {
    dev.uclassId == UclassMmc && dev.hwpart == 0 && dev.uclassId in board.uclassNames
    && !(|board.uclassNames[dev.uclassId]| > 0 && board.uclassNames[dev.uclassId][0] == '(')
  }

  /** The key under which an eligible device's definition is looked up. */
  function KeyOf(dev: BlkDesc, board: Board): CStr
    requires Eligible(dev, board)
  {
    EnvKey(board.uclassNames[dev.uclassId], dev.devnum)
  }

  /** The definition string of the device, or `None` where the source returns NULL. */
  function DefinitionEnv(dev: BlkDesc, board: Board): (r: Option<CStr>)
    ensures r.Some? ==> dev.uclassId == UclassMmc && dev.hwpart == 0
    ensures r.Some? ==> exists key | key in board.env ::
      |key| >= |KEY_PREFIX| && key[..|KEY_PREFIX|] == KEY_PREFIX && board.env[key] == r.value
    ensures r.Some? <==> Eligible(dev, board) && KeyOf(dev, board) in board.env
    ensures r.Some? ==> Eligible(dev, board) && r.value == board.env[KeyOf(dev, board)]
  {
    if dev.uclassId != UclassMmc || dev.hwpart != 0 then None
    else if dev.uclassId !in board.uclassNames then None
    else
      var name := board.uclassNames[dev.uclassId];
      if |name| > 0 && name[0] == '(' then None
      else
        var key := EnvKey(name, dev.devnum);
        if key in board.env then Some(board.env[key]) else None
  }

  /** Environment variables whose names do not start with `envparts_`, and uclass names
      other than that of the device, never change a device's definition. */
  lemma OtherVariablesIgnored(dev: BlkDesc, board: Board, board': Board)
    requires dev.uclassId in board.uclassNames <==> dev.uclassId in board'.uclassNames
    requires dev.uclassId in board.uclassNames ==>
      board.uclassNames[dev.uclassId] == board'.uclassNames[dev.uclassId]
    requires forall key :: |key| >= |KEY_PREFIX| && key[..|KEY_PREFIX|] == KEY_PREFIX ==>
      (key in board.env <==> key in board'.env) && (key in board.env ==> board.env[key] == board'.env[key])
    ensures DefinitionEnv(dev, board) == DefinitionEnv(dev, board')
  {
    if Eligible(dev, board) {
      var key := KeyOf(dev, board);
      assert key[..|KEY_PREFIX|] == KEY_PREFIX;
    }
  }

  /** When the key is not cut, the digits after the uclass name read back as the
      device number. */
  lemma {:induction false} KeyRecoversDevice(uclassName: CStr, devnum: int32)
    requires devnum >= 0
    requires |KeyText(uclassName, devnum)| < KEY_SUFFIX_MAX_LEN
    ensures var key := EnvKey(uclassName, devnum);
      |KEY_PREFIX| + |uclassName| < |key| &&
      key[..|KEY_PREFIX| + |uclassName|] == KEY_PREFIX + uclassName &&
      AllDigits(key[|KEY_PREFIX| + |uclassName|..]) &&
      Value(key[|KEY_PREFIX| + |uclassName|..]) == devnum
  {
    var key := EnvKey(uclassName, devnum);
    assert key == KEY_PREFIX + uclassName + NatDigits(devnum);
    assert key[|KEY_PREFIX| + |uclassName|..] == NatDigits(devnum);
    assert key[..|KEY_PREFIX| + |uclassName|] == KEY_PREFIX + uclassName;
    ValueOfNatDigits(devnum);
  }

  /** Two devices of one uclass with different non-negative numbers read different
      variables, as long as neither key is cut. */
  lemma DistinctDevicesDistinctKeys(uclassName: CStr, d1: int32, d2: int32)
    requires d1 >= 0 && d2 >= 0 && d1 != d2
    requires |KeyText(uclassName, d1)| < KEY_SUFFIX_MAX_LEN
    requires |KeyText(uclassName, d2)| < KEY_SUFFIX_MAX_LEN
    ensures EnvKey(uclassName, d1) != EnvKey(uclassName, d2)
  {
    KeyRecoversDevice(uclassName, d1);
    KeyRecoversDevice(uclassName, d2);
  }

  /** A uclass name that fills the room after the prefix leaves no room for the device
      number: every device of that uclass reads the same variable. */
  lemma LongNameHidesDevice(uclassName: CStr, d1: int32, d2: int32)
    requires |uclassName| >= KEY_SUFFIX_MAX_LEN - 1
    ensures EnvKey(uclassName, d1) == EnvKey(uclassName, d2)
  {
    var n := KEY_SUFFIX_MAX_LEN - 1;
    assert KeyText(uclassName, d1)[..n] == uclassName[..n];
    assert KeyText(uclassName, d2)[..n] == uclassName[..n];
  }

  /** The first MMC device reads `envparts_mmc1`, the variable of the example table. */
  lemma KeyOfMmc1()
    ensures EnvKey("mmc", 1) == "envparts_mmc1"
  {
    assert FormatInt(1) == "1";
  }
}
