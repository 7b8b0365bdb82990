/** The five block kinds of the BLOCK_TYPES table (main.js) and the
    digit-key selection of the block to place. */
module Blocks {
  import opened Options

  datatype Block = Grass | Dirt | Stone | Wood | Leaves

  /** The numeric key BLOCK_TYPES gives each kind. */
  function Id(b: Block): (n: int)
    ensures 1 <= n <= 5
  {
    match b
    case Grass => 1
    case Dirt => 2
    case Stone => 3
    case Wood => 4
    case Leaves => 5
  }

  /** The entry of BLOCK_TYPES under a numeric key, if there is one. */
  function FromId(n: int): (r: Option<Block>)
    ensures r.Some? <==> 1 <= n <= 5
  {
    if n == 1 then Some(Grass)
    else if n == 2 then Some(Dirt)
    else if n == 3 then Some(Stone)
    else if n == 4 then Some(Wood)
    else if n == 5 then Some(Leaves)
    else None
  }

  /** Looking a kind up by its own key gives the kind back, and every key
      that has an entry is the key of that entry. */
  lemma IdRoundTrip(b: Block, n: int)
    ensures FromId(Id(b)) == Some(b)
    ensures FromId(n) == Some(b) ==> Id(b) == n
  {
  }

  /** The display name BLOCK_TYPES stores for each kind. */
  function Name(b: Block): (s: string)
    ensures |s| > 0
  {
    match b
    case Grass => "Grass"
    case Dirt => "Dirt"
    case Stone => "Stone"
    case Wood => "Wood"
    case Leaves => "Leaves"
  }

  /** Names tell the kinds apart. */
  lemma NameInjective(a: Block, b: Block)
    ensures Name(a) == Name(b) ==> a == b
  {
  }

  /** The key code of the digit key that selects a kind. */
  function DigitCode(b: Block): (code: string)
    ensures |code| == 6 && code[..5] == "Digit"
  {
    match b
    case Grass => "Digit1"
    case Dirt => "Digit2"
    case Stone => "Digit3"
    case Wood => "Digit4"
    case Leaves => "Digit5"
  }

  /** The selected kind after a keydown with the given code. */
  function SelectBlock(cur: Block, code: string): Block
  {
    if code == "Digit1" then Grass
    else if code == "Digit2" then Dirt
    else if code == "Digit3" then Stone
    else if code == "Digit4" then Wood
    else if code == "Digit5" then Leaves
    else cur
  }

  /** Digit1 to Digit5 select the kinds with keys 1 to 5 whatever was
      selected before; every other key code leaves the selection alone. */
  lemma SelectBlockSpec(cur: Block, code: string, b: Block)
    ensures SelectBlock(cur, DigitCode(b)) == b
    ensures (forall k: Block :: code != DigitCode(k)) ==> SelectBlock(cur, code) == cur
    ensures SelectBlock(cur, code) != cur ==> code == DigitCode(SelectBlock(cur, code))
  {
    if SelectBlock(cur, code) != cur {
      assert code == DigitCode(SelectBlock(cur, code));
    }
    if forall k: Block :: code != DigitCode(k) {
      assert code != DigitCode(Grass) && code != DigitCode(Dirt) && code != DigitCode(Stone);
      assert code != DigitCode(Wood) && code != DigitCode(Leaves);
    }
  }
}
