/**
 Vocabulary shared by the scheduler and the D-Bus stub: recovery states, the
 fixed-width integers they are counted in, and the catalogue of service names.
 */
module Common {

  datatype Option<+T> = None | Some(value: T)

  // Runs grow at the end, so histories are taken apart from there.

  function Front<T>(s: seq<T>): seq<T>
    requires s != []
  {
    s[..|s| - 1]
  }

  function Last<T>(s: seq<T>): T
    requires s != []
  {
    s[|s| - 1]
  }

  /** A recovery state is one unsigned byte; five values have a name. */
  type Action = x: int | 0 <= x < 256

  const RESTART: Action := 0
  const STOP: Action := 1
  const DISABLE: Action := 2
  const CRASHED: Action := 3
  const UNKNOWN: Action := 255

  const DEFAULT_POLICY: seq<Action> := [RESTART, RESTART, STOP, DISABLE]

  type Int8 = x: int | -128 <= x < 128

  type UInt32 = x: int | 0 <= x < 0x1_0000_0000

  /** Narrowing to `int8_t`: two's-complement wrap, as gcc and clang do it. */
  function ToInt8(x: int): Int8
  {
    var low := x % 256;
    if low < 128 then low else low - 256
  }

  /** Reduction to `uint32_t`. */
  function ToUInt32(x: int): UInt32
  {
    x % 0x1_0000_0000
  }

  /** Catalogued applications have the ids 2100 to 2119 and are called AppA to AppT. */
  type ServiceId = id: int | FIRST_ID <= id <= LAST_ID witness FIRST_ID

  const FIRST_ID := 2100
  const LAST_ID := 2119
  const LETTERS := "ABCDEFGHIJKLMNOPQRST"

  function ServiceName(id: ServiceId): (name: string)
    ensures name != ""
  {
    "App" + [LETTERS[id - FIRST_ID]]
  }

  /** A service may register under the names of the catalogue and no others. */
  predicate InCatalogue(name: string)
  {
    exists id: ServiceId :: ServiceName(id) == name
  }

  /** Id 2100 is AppA, and names follow the ids letter by letter. */
  lemma NameOfId(i: nat)
    requires i < 20
    ensures ServiceName(2100 + i) == "App" + ['A' + i as char]
  {
    LetterAt(i);
  }

  lemma LetterAt(i: nat)
    requires i < |LETTERS|
    ensures LETTERS[i] == 'A' + i as char
  {
  }

  /** "App" followed by one letter from A to T. */
  predicate IsAppName(name: string)
  {
    |name| == 4 && name[..3] == "App" && 'A' <= name[3] <= 'T'
  }

  /** Those are the names that may register, and there are no others. */
  lemma CatalogueIs(name: string)
    ensures InCatalogue(name) <==> IsAppName(name)
  {
    if IsAppName(name) {
      var i := name[3] as int - 'A' as int;
      NameOfId(i);
      assert name == name[..3] + [name[3]];
    } else if id: ServiceId :| ServiceName(id) == name {
      NameOfId(id - 2100);
    }
  }

  /** The 32-bit counter is the exact count up to 2^32 - 1 and repeats from there. */
  lemma {:induction false} CountIs(n: nat, turns: nat)
    requires n < 0x1_0000_0000
    ensures ToUInt32(n + turns * 0x1_0000_0000) == n
  {
    if turns > 0 {
      CountIs(n, turns - 1);
    }
  }
}
