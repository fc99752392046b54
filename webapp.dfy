/**
 The web generator: a second elementary cellular automaton, started from a
 random row, whose grid is flattened and read eight bits at a time to pick
 characters from the selected classes; and the plain random generator that
 sits beside it.

 The random draws are inputs here: the first row of every grid and, for the
 plain generator, the index of every character it picks.
 */
module WebGenerator {
  import opened Bits
  import opened CharClasses
  import opened Results

  /** What the request handler answers with instead of a list of passwords. */
  datatype AppError =
    | NoCharacterSets  // the 400 answer "No character sets selected."
    | EmptyGrid        // IndexError: `grid[0]` of a grid with no rows

  /** The request fields the derivation reads. */
  datatype Request = Request(length: int, sel: Selection, rule: int, width: int, iterations: int, count: int)

  /** The answer: one password per requested grid, and the first grid when there was one. */
  datatype Response = Response(passwords: seq<string>, grid: Option<seq<seq<Bit>>>)

  // ---------------------------------------------------------------------------
  // The automaton

  /** `ruleset`: `(rule >> i) & 1` for i in `reversed(range(8))`, that is the eight low bits
      of the rule listed from bit 7 down to bit 0. */
  function RuleSet(rule: int): (rs: seq<Bit>)
    ensures |rs| == 8
  {
    Reverse(seq(8, i requires 0 <= i < 8 => BitOf(rule, i)))
  }

  /** The cell the rule set gives a neighbourhood: entry `(left << 2) | (center << 1) | right`. */
  function Lookup(rule: int, left: Bit, center: Bit, right: Bit): (b: Bit)
    ensures b == BitOf(rule, 7 - Index(left, center, right))
  {
    RuleSetEntry(rule, Index(left, center, right));
    RuleSet(rule)[Index(left, center, right)]
  }

  /** Row `row` of the grid computed from row `row - 1`, cell by cell with circular neighbours. */
  function AppStep(rule: int, prev: seq<Bit>): (next: seq<Bit>)
    ensures |next| == |prev|
  {
    seq(|prev|, c requires 0 <= c < |prev| =>
      Lookup(rule, prev[Prev(c, |prev|)], prev[c], prev[Next(c, |prev|)]))
  }

  /** Row k of the grid grown from the first row. */
  function AppIterate(rule: int, first: seq<Bit>, k: nat): (row: seq<Bit>)
    ensures |row| == |first|
  {
    if k == 0 then first else AppStep(rule, AppIterate(rule, first, k - 1))
  }

  /** The grid of `iterations` rows grown from the first row. */
  function AppGrid(rule: int, first: seq<Bit>, iterations: nat): (grid: seq<seq<Bit>>)
    ensures |grid| == iterations
  {
    seq(iterations, k requires 0 <= k < iterations => AppIterate(rule, first, k))
  }

  /** The width of a row of `range(width)`: a negative width gives an empty row. */
  function RowWidth(width: int): (w: nat)
  {
    if width < 0 then 0 else width
  }

  /** `generate_automaton`: a zero grid whose first row is the drawn row and whose
      later rows are filled cell by cell from the row above. */
  method GenerateAutomaton(rule: int, width: int, iterations: int, first: seq<Bit>)
    returns (r: Result<seq<seq<Bit>>, AppError>)
    requires |first| == RowWidth(width)
    ensures iterations <= 0 <==> r == Err(EmptyGrid)
    ensures iterations >= 1 ==> r == Ok(AppGrid(rule, first, iterations))
  {
    if iterations <= 0 {
      return Err(EmptyGrid);
    }
    var w := |first|;
    var grid := seq(iterations, _ => Zeros(w));
    grid := grid[0 := first];
    for row := 1 to iterations
      invariant |grid| == iterations
      invariant grid[..row] == AppGrid(rule, first, row)
      invariant forall k :: row <= k < iterations ==> |grid[k]| == w
    {
      var above := grid[row - 1];
      var filled := FillRow(rule, above, grid[row]);
      grid := grid[row := filled];
      AppGridSnoc(rule, first, row);
      assert grid[..row + 1] == grid[..row] + [grid[row]];
    }
    assert grid == grid[..iterations];
    r := Ok(grid);
  }

  /** The inner loop of `generate_automaton`: overwrites every cell of a row of the grid
      with the rule set's entry for the neighbourhood above it. */
  method FillRow(rule: int, above: seq<Bit>, row: seq<Bit>) returns (filled: seq<Bit>)
    requires |row| == |above|
    ensures filled == AppStep(rule, above)
  {
    var w := |above|;
    filled := row;
    for col := 0 to w
      invariant |filled| == w
      invariant forall c :: 0 <= c < col ==> filled[c] == AppStep(rule, above)[c]
    {
      var left := above[Prev(col, w)];
      var center := above[col];
      var right := above[Next(col, w)];
      var idx := Index(left, center, right);
      filled := filled[col := RuleSet(rule)[idx]];
    }
  }

  // ---------------------------------------------------------------------------
  // The character set

  /** The charset: the selected classes concatenated in their fixed order, the specials being the eight web ones. */
  function WebCharset(sel: Selection): (charset: string)
    ensures |charset| == (if sel.lowercase then 26 else 0) + (if sel.uppercase then 26 else 0)
                         + (if sel.digits then 10 else 0) + (if sel.special then 8 else 0)
  {
    var a := if sel.lowercase then Lowercase else "";
    var b := if sel.uppercase then a + Uppercase else a;
    var c := if sel.digits then b + Digits else b;
    if sel.special then c + WebSpecials else c
  }

  /** The charset built by successive `+=`, as both generators do. */
  method BuildCharset(sel: Selection) returns (charset: string)
    ensures charset == WebCharset(sel)
    ensures charset == "" <==> !sel.AnySelected()
  {
    charset := "";
    if sel.lowercase {
      charset := charset + Lowercase;
      assert charset == Lowercase;
    }
    if sel.uppercase {
      charset := charset + Uppercase;
    }
    if sel.digits {
      charset := charset + Digits;
    }
    if sel.special {
      charset := charset + WebSpecials;
    }
  }

  // ---------------------------------------------------------------------------
  // The plain random generator

  /** The draws of the plain generator fit: one in-range index per character. */
  predicate PicksFit(length: int, sel: Selection, picks: seq<nat>)
  {
    |picks| == RowWidth(length) &&
    forall i :: 0 <= i < |picks| ==> picks[i] < |WebCharset(sel)|
  }

  /** `generate_password` of the web module: the empty string when no class is selected,
      otherwise `length` drawn characters of the charset. */
  method GenerateRandomPassword(length: int, sel: Selection, picks: seq<nat>) returns (password: string)
    requires sel.AnySelected() ==> PicksFit(length, sel, picks)
    ensures !sel.AnySelected() ==> password == ""
    ensures sel.AnySelected() ==> |password| == RowWidth(length)
    ensures sel.AnySelected() ==> forall i :: 0 <= i < |password| ==> password[i] == WebCharset(sel)[picks[i]]
    ensures forall i :: 0 <= i < |password| ==> password[i] in WebCharset(sel)
  {
    var charset := BuildCharset(sel);
    if charset == "" {
      return "";
    }
    password := seq(|picks|, i requires 0 <= i < |picks| => charset[picks[i]]);
  }

  // ---------------------------------------------------------------------------
  // The derivation from the grid

  /** `flat_bits`: the grid's rows one after another. */
  function Flatten(grid: seq<seq<Bit>>): (flat: seq<Bit>)
  {
    if grid == [] then [] else Flatten(grid[..|grid| - 1]) + grid[|grid| - 1]
  }

  /** The number of starts `range(0, n - 8, 8)` yields. */
  function GroupCount(n: nat): (g: nat)
  {
    if n <= 8 then 0 else (n - 1) / 8
  }

  /** `xs[:n]` for any integer n: a negative n drops that many entries from the end. */
  function PyPrefix<T>(xs: seq<T>, n: int): (p: seq<T>)
    ensures |p| == if n >= 0 then (if n <= |xs| then n else |xs|) else (if |xs| + n >= 0 then |xs| + n else 0)
    ensures p == xs[..|p|]
  {
    if n >= 0 then (if n <= |xs| then xs[..n] else xs)
    else if |xs| + n >= 0 then xs[..|xs| + n] else []
  }

  /** `indices`: the value of every eight-bit group, modulo the charset size. */
  function Indices(flat: seq<Bit>, size: nat): (indices: seq<nat>)
    requires size > 0
    ensures |indices| == GroupCount(|flat|)
    ensures forall g :: 0 <= g < |indices| ==> 8 * g + 8 < |flat| && indices[g] < size
  {
    seq(GroupCount(|flat|), g requires 0 <= g < GroupCount(|flat|) => BitsValue(flat[8 * g..8 * g + 8]) % size)
  }

  /** `password_from_automaton`: the characters the first `length` groups select. */
  function PasswordFromAutomaton(grid: seq<seq<Bit>>, charset: string, length: int): (password: string)
    requires |charset| > 0
    ensures |password| == |PyPrefix(Indices(Flatten(grid), |charset|), length)|
    ensures forall j :: 0 <= j < |password| ==> password[j] in charset
  {
    var chosen := PyPrefix(Indices(Flatten(grid), |charset|), length);
    seq(|chosen|, j requires 0 <= j < |chosen| => charset[chosen[j]])
  }

  // ---------------------------------------------------------------------------
  // The request handler

  /** One drawn first row per requested grid, each as wide as the request asks. */
  predicate SeedsFit(req: Request, seeds: seq<seq<Bit>>)
  {
    |seeds| == RowWidth(req.count) && forall i :: 0 <= i < |seeds| ==> |seeds[i]| == RowWidth(req.width)
  }

  /** The handler's derivation: the charset check, then one grid and one password per requested count. */
  method Generate(req: Request, seeds: seq<seq<Bit>>) returns (r: Result<Response, AppError>)
    requires SeedsFit(req, seeds)
    ensures r == Err(NoCharacterSets) <==> !req.sel.AnySelected()
    ensures r == Err(EmptyGrid) <==> req.sel.AnySelected() && req.count >= 1 && req.iterations <= 0
    ensures r.Ok? ==> |r.value.passwords| == RowWidth(req.count)
    ensures r.Ok? ==> r.value.passwords == Passwords(req.rule, RowWidth(req.iterations), WebCharset(req.sel), req.length, seeds)
    ensures r.Ok? ==> r.value.grid == if req.count >= 1 then Some(AppGrid(req.rule, seeds[0], req.iterations)) else None
  {
    var charset := BuildCharset(req.sel);
    if charset == "" {
      return Err(NoCharacterSets);
    }
    r := GeneratePasswords(req, charset, seeds);
  }

  /** The passwords of the grids grown from the given first rows, in order. */
  function Passwords(rule: int, iterations: nat, charset: string, length: int, seeds: seq<seq<Bit>>): (passwords: seq<string>)
    requires |charset| > 0
    ensures |passwords| == |seeds|
  {
    seq(|seeds|, k requires 0 <= k < |seeds| => PasswordFromAutomaton(AppGrid(rule, seeds[k], iterations), charset, length))
  }

  /** The loop of the handler: one grid and one password from it per drawn first row. */
  method GeneratePasswords(req: Request, charset: string, seeds: seq<seq<Bit>>) returns (r: Result<Response, AppError>)
    requires SeedsFit(req, seeds) && |charset| > 0
    ensures r.Err? <==> req.count >= 1 && req.iterations <= 0
    ensures r.Err? ==> r.error == EmptyGrid
    ensures r.Ok? ==> r.value.passwords == Passwords(req.rule, RowWidth(req.iterations), charset, req.length, seeds)
    ensures r.Ok? ==> r.value.grid == if req.count >= 1 then Some(AppGrid(req.rule, seeds[0], req.iterations)) else None
  {
    var passwords: seq<string> := [];
    var firstGrid: Option<seq<seq<Bit>>> := None;
    for i := 0 to |seeds|
      invariant req.iterations >= 1 || i == 0
      invariant passwords == Passwords(req.rule, RowWidth(req.iterations), charset, req.length, seeds[..i])
      invariant firstGrid == if i >= 1 then Some(AppGrid(req.rule, seeds[0], req.iterations)) else None
    {
      var grid := GenerateAutomaton(req.rule, req.width, req.iterations, seeds[i]);
      if grid.Err? {
        return Err(grid.error);
      }
      PasswordsSnoc(req.rule, req.iterations, charset, req.length, seeds, i);
      passwords := passwords + [PasswordFromAutomaton(grid.value, charset, req.length)];
      if i == 0 {
        firstGrid := Some(grid.value);
      }
    }
    assert seeds[..|seeds|] == seeds;
    r := Ok(Response(passwords, firstGrid));
  }

  // ---------------------------------------------------------------------------
  // Properties

  /** One more first row adds the password of its grid to the list. */
  lemma PasswordsSnoc(rule: int, iterations: nat, charset: string, length: int, seeds: seq<seq<Bit>>, i: nat)
    requires |charset| > 0 && i < |seeds|
    ensures Passwords(rule, iterations, charset, length, seeds[..i + 1])
            == Passwords(rule, iterations, charset, length, seeds[..i])
               + [PasswordFromAutomaton(AppGrid(rule, seeds[i], iterations), charset, length)]
  {
    var longer := Passwords(rule, iterations, charset, length, seeds[..i + 1]);
    var shorter := Passwords(rule, iterations, charset, length, seeds[..i]);
    forall k | 0 <= k < i
      ensures longer[k] == shorter[k]
    {
      assert seeds[..i + 1][k] == seeds[..i][k];
    }
  }

  /** A character is in the charset exactly when it belongs to one of the selected classes. */
  lemma WebCharsetMembers(sel: Selection, c: char)
    ensures c in WebCharset(sel) <==> (sel.lowercase && c in Lowercase) || (sel.uppercase && c in Uppercase)
                                      || (sel.digits && c in Digits) || (sel.special && c in WebSpecials)
  {
  }

  /** The grid has `iterations` rows as wide as the first, starts with the drawn row,
      and each later row is the step of the row above it. */
  lemma AppGridShape(rule: int, first: seq<Bit>, iterations: nat)
    requires iterations >= 1
    ensures AppGrid(rule, first, iterations)[0] == first
    ensures forall k :: 0 <= k < iterations ==> |AppGrid(rule, first, iterations)[k]| == |first|
    ensures forall k :: 1 <= k < iterations ==>
      AppGrid(rule, first, iterations)[k] == AppStep(rule, AppGrid(rule, first, iterations)[k - 1])
  {
  }

  /** A longer grid extends the shorter one by the next row. */
  lemma AppGridSnoc(rule: int, first: seq<Bit>, n: nat)
    ensures AppGrid(rule, first, n + 1) == AppGrid(rule, first, n) + [AppIterate(rule, first, n)]
  {
  }

  /** Entry idx of the rule set is bit 7 - idx of the rule. */
  lemma RuleSetEntry(rule: int, idx: nat)
    requires idx < 8
    ensures RuleSet(rule)[idx] == BitOf(rule, 7 - idx)
  {
    var bits := seq(8, i requires 0 <= i < 8 => BitOf(rule, i));
    assert RuleSet(rule)[idx] == bits[7 - idx];
  }

  /** A grid of rows of width w flattens to |grid| * w cells. */
  lemma {:induction false} FlattenLength(grid: seq<seq<Bit>>, w: nat)
    requires forall k :: 0 <= k < |grid| ==> |grid[k]| == w
    ensures |Flatten(grid)| == |grid| * w
  {
    if grid != [] {
      FlattenLength(grid[..|grid| - 1], w);
      RowOffsets(|grid| - 1, w);
    }
  }

  /** The flattened grid holds every row in turn: cell c of row k sits at k * w + c. */
  lemma {:induction false} FlattenCell(grid: seq<seq<Bit>>, w: nat, k: nat, c: nat)
    requires forall i :: 0 <= i < |grid| ==> |grid[i]| == w
    requires k < |grid| && c < w
    ensures k * w + c < |Flatten(grid)| && Flatten(grid)[k * w + c] == grid[k][c]
  {
    var n := |grid|;
    var init := grid[..n - 1];
    FlattenLength(init, w);
    RowOffsets(n - 1, w);
    RowOffset(k, n - 1, c, w);
    if k < n - 1 {
      FlattenCell(init, w, k, c);
    }
  }

  /** The arithmetic of row offsets: n rows and one more make (n + 1) * w cells. */
  lemma RowOffsets(n: nat, w: nat)
    ensures (n + 1) * w == n * w + w
  {
  }

  /** Cell c of a row before row n lies before n * w; of row n, at n * w + c. */
  lemma RowOffset(k: nat, n: nat, c: nat, w: nat)
    requires k <= n && c < w
    ensures k < n ==> k * w + c < n * w
    ensures k == n ==> k * w + c == n * w + c
  {
    if k < n {
      assert k * w + c < k * w + w == (k + 1) * w;
      MulMonotone(k + 1, n, w);
    }
  }

  lemma MulMonotone(a: nat, b: nat, w: nat)
    requires a <= b
    ensures a * w <= b * w
  {
  }

  /** A group starts at 8g exactly when 8g < n - 8: the starts of `range(0, n - 8, 8)`. */
  lemma GroupStarts(n: nat, g: nat)
    ensures g < GroupCount(n) <==> 8 * g < n - 8
  {
  }

  /** When the bit count is a multiple of eight, the last whole byte is never read. */
  lemma FinalByteUnused(n: nat)
    requires n >= 8 && n % 8 == 0
    ensures GroupCount(n) == n / 8 - 1
  {
  }

  /** For a non-negative length the password has `min(length, groups)` characters:
      it is silently shorter when the grid runs out of bits. */
  lemma PasswordLength(grid: seq<seq<Bit>>, charset: string, length: int)
    requires |charset| > 0 && length >= 0
    ensures var groups := GroupCount(|Flatten(grid)|);
      |PasswordFromAutomaton(grid, charset, length)| == if length <= groups then length else groups
  {
  }

  /** Character j is the charset entry at the value of the j-th eight-bit group modulo the charset size. */
  lemma PasswordCharacter(grid: seq<seq<Bit>>, charset: string, length: int, j: nat)
    requires |charset| > 0 && j < |PasswordFromAutomaton(grid, charset, length)|
    ensures 8 * j + 8 < |Flatten(grid)|
    ensures var v := BitsValue(Flatten(grid)[8 * j..8 * j + 8]) % |charset|;
      v < |charset| && PasswordFromAutomaton(grid, charset, length)[j] == charset[v]
  {
    var indices := Indices(Flatten(grid), |charset|);
    var chosen := PyPrefix(indices, length);
    assert chosen[j] == indices[j];
  }


  /** A w-wide grid of `iterations` rows holds `iterations * w` bits. */
  lemma GridBits(rule: int, first: seq<Bit>, iterations: nat)
    ensures |Flatten(AppGrid(rule, first, iterations))| == iterations * |first|
  {
    FlattenLength(AppGrid(rule, first, iterations), |first|);
  }

}
