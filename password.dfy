/**
 The command-line password generator: an elementary cellular automaton on a
 circular row, seeded with one live cell in the middle, whose history is
 mixed down to one row and cut into chunks that select password characters,
 followed by a repair pass that substitutes one character for every selected
 character class the password lacks.

 The random draws of the generator are inputs here: the three sampled history
 rows and, for each character class, the position and the character a repair
 would use.
 */
module CaPassword {
  import opened Bits
  import opened CharClasses
  import opened Results

  /** A rule number; the command line offers 0 to 255. */
  type Rule = r: nat | r <= 255

  /** What `generate_password` raises. */
  datatype GenError =
    | NoCharacterSet    // ValueError: no character class selected
    | EmptyHistory      // IndexError: `history[0]` of a run with zero iterations
    | DivisionByZero    // ZeroDivisionError: `width // 0`, or `% (width - chunk_size)` with chunk_size == width
    | EmptyRandomRange  // ValueError: `random.randint(0, -1)` when repairing an empty password

  /** The random draws of one `_replace_character` call: a position and an index into the class. */
  datatype Repair = Repair(index: nat, choice: nat)

  // ---------------------------------------------------------------------------
  // The automaton

  /** `apply_rule`: the neighbourhood's cell of `format(rule, '08b')`, counted from the right. */
  function ApplyRule(rule: Rule, left: Bit, center: Bit, right: Bit): (b: Bit)
    ensures b == BitOf(rule, Index(left, center, right))
  {
    var index := 7 - Index(left, center, right);
    ToBinaryDigit(rule, 8, 7 - index);
    ToBinary(rule, 8)[index]
  }

  /** The row `evolve` computes: each cell is the rule applied to the cell and its circular neighbours. */
  function Step(rule: Rule, row: seq<Bit>): (next: seq<Bit>)
    ensures |next| == |row|
  {
    seq(|row|, i requires 0 <= i < |row| =>
      ApplyRule(rule, row[Prev(i, |row|)], row[i], row[Next(i, |row|)]))
  }

  /** The row after n generations. */
  function Iterate(rule: Rule, row: seq<Bit>, n: nat): (last: seq<Bit>)
    ensures |last| == |row|
  {
    if n == 0 then row else Step(rule, Iterate(rule, row, n - 1))
  }

  /** The `iterations` rows `run_automaton` records: the row itself, then each following generation. */
  function History(rule: Rule, row: seq<Bit>, iterations: nat): (h: seq<seq<Bit>>)
    ensures |h| == iterations
  {
    seq(iterations, k requires 0 <= k < iterations => Iterate(rule, row, k))
  }

  /** The constructor's row: w dead cells but the one at w / 2. */
  function CenterSeed(w: nat): (row: seq<Bit>)
    requires w >= 1
    ensures |row| == w && row[w / 2] == 1
  {
    Zeros(w)[w / 2 := 1]
  }

  // ---------------------------------------------------------------------------
  // Password derivation

  /** The k-th character class, in the order lowercase, uppercase, digits, special. */
  function ClassChars(k: nat): (cls: string)
    requires k < 4
    ensures |cls| > 0
  {
    if k == 0 then Lowercase else if k == 1 then Uppercase else if k == 2 then Digits else Specials
  }

  /** `''.join(char_sets)`: the selected classes concatenated in their fixed order. */
  function Pool(sel: Selection): (pool: string)
    ensures |pool| == (if sel.lowercase then 26 else 0) + (if sel.uppercase then 26 else 0)
                      + (if sel.digits then 10 else 0) + (if sel.special then 27 else 0)
  {
    (if sel.lowercase then Lowercase else "") + (if sel.uppercase then Uppercase else "")
    + (if sel.digits then Digits else "") + (if sel.special then Specials else "")
  }

  /** The rows the generator drew, in the order it drew them. */
  function SampledRows(history: seq<seq<Bit>>, sampled: seq<nat>): (rows: seq<seq<Bit>>)
    requires forall k :: 0 <= k < |sampled| ==> sampled[k] < |history|
    ensures |rows| == |sampled|
    ensures forall k :: 0 <= k < |rows| ==> rows[k] == history[sampled[k]]
  {
    seq(|sampled|, k requires 0 <= k < |sampled| => history[sampled[k]])
  }

  /** `acc` exclusive-or'ed with each of `rows` in turn. */
  function XorFold(acc: seq<Bit>, rows: seq<seq<Bit>>): (r: seq<Bit>)
    requires forall k :: 0 <= k < |rows| ==> |rows[k]| == |acc|
    ensures |r| == |acc|
  {
    if rows == [] then acc else Xor(XorFold(acc, rows[..|rows| - 1]), rows[|rows| - 1])
  }

  /** The number of live cells in column i of the rows. */
  function ColumnOnes(rows: seq<seq<Bit>>, i: nat): (n: nat)
    requires forall k :: 0 <= k < |rows| ==> i < |rows[k]|
  {
    if rows == [] then 0 else ColumnOnes(rows[..|rows| - 1], i) + rows[|rows| - 1][i]
  }

  /** The row the password is read from: the last row of the history exclusive-or'ed with the sampled rows. */
  function Mix(history: seq<seq<Bit>>, sampled: seq<nat>): (combined: seq<Bit>)
    requires |history| >= 1
    requires forall k :: 0 <= k < |history| ==> |history[k]| == |history[0]|
    requires forall k :: 0 <= k < |sampled| ==> sampled[k] < |history|
    ensures |combined| == |history[0]|
  {
    XorFold(history[|history| - 1], SampledRows(history, sampled))
  }

  /** `max(1, width // length)` for a positive length. */
  function ChunkSize(width: nat, length: nat): (chunk: nat)
    requires length >= 1
    ensures chunk >= 1
    ensures width >= 1 ==> chunk <= width
  {
    if width / length >= 1 then width / length else 1
  }

  /** `start_idx` of character i: the chunk it reads lies inside the row. */
  function ChunkStart(i: nat, chunk: nat, width: nat): (start: nat)
    requires chunk < width
    ensures start + chunk < width
  {
    (i * chunk) % (width - chunk)
  }

  /** Character i before repair: the chunk's binary value, modulo the pool size, indexes the pool. */
  function CharAt(combined: seq<Bit>, pool: string, chunk: nat, i: nat): (c: char)
    requires 1 <= chunk < |combined| && |pool| > 0
    ensures c in pool
  {
    var start := ChunkStart(i, chunk, |combined|);
    pool[BitsValue(combined[start..start + chunk]) % |pool|]
  }

  /** The password before repair. */
  function RawPassword(combined: seq<Bit>, pool: string, chunk: nat, length: nat): (pw: string)
    requires 1 <= chunk < |combined| && |pool| > 0
    ensures |pw| == length
    ensures forall i :: 0 <= i < length ==> pw[i] in pool
  {
    seq(length, i requires 0 <= i < length => CharAt(combined, pool, chunk, i))
  }

  // ---------------------------------------------------------------------------
  // Repair

  /** The repair draws fit a password of the given length: one per class, in range. */
  predicate RepairsFit(repairs: seq<Repair>, length: int)
  {
    |repairs| == 4 &&
    forall k :: 0 <= k < 4 ==> repairs[k].index < length && repairs[k].choice < |ClassChars(k)|
  }

  /** Class k is selected but absent from pw, so `_ensure_character_types` repairs it. */
  predicate Missing(pw: string, sel: Selection, k: nat)
    requires k < 4
  {
    sel.Has(k) && !HasAnyOf(pw, ClassChars(k))
  }

  /** One `if include_… and not has_…` of `_ensure_character_types`; the test reads the
      password as it was before the repair pass, the replacement writes the current one. */
  function RepairStep(orig: string, cur: string, sel: Selection, repairs: seq<Repair>, k: nat): (next: string)
    requires k < 4 && |cur| == |orig| && RepairsFit(repairs, |orig|)
    ensures |next| == |cur|
  {
    if Missing(orig, sel, k) then cur[repairs[k].index := ClassChars(k)[repairs[k].choice]] else cur
  }

  /** The password after `_ensure_character_types`. */
  function Repaired(pw: string, sel: Selection, repairs: seq<Repair>): (fixed: string)
    requires RepairsFit(repairs, |pw|)
    ensures |fixed| == |pw|
  {
    var p0 := RepairStep(pw, pw, sel, repairs, 0);
    var p1 := RepairStep(pw, p0, sel, repairs, 1);
    var p2 := RepairStep(pw, p1, sel, repairs, 2);
    RepairStep(pw, p2, sel, repairs, 3)
  }

  // ---------------------------------------------------------------------------
  // The whole derivation

  /** The random draws fit the run: three sampled rows of the history, and in-range repairs. */
  predicate ChoicesFit(iterations: nat, length: int, sampled: seq<nat>, repairs: seq<Repair>)
  {
    (iterations >= 1 ==> |sampled| == 3 && forall k :: 0 <= k < 3 ==> sampled[k] < iterations) &&
    (length >= 1 ==> RepairsFit(repairs, length))
  }

  /** What `generate_password` returns, or raises, from the given row and draws. */
  function Generated(rule: Rule, cells: seq<Bit>, iterations: nat, length: int, sel: Selection,
                     sampled: seq<nat>, repairs: seq<Repair>): (r: Result<string, GenError>)
    requires |cells| >= 1
    requires ChoicesFit(iterations, length, sampled, repairs)
    ensures r.Ok? ==> |r.value| == length
    ensures r.Ok? ==> forall i :: 0 <= i < |r.value| ==> r.value[i] in Pool(sel)
  {
    if !sel.AnySelected() then Err(NoCharacterSet)
    else if iterations == 0 then Err(EmptyHistory)
    else if length == 0 then Err(DivisionByZero)
    else if length < 0 then Err(EmptyRandomRange)
    else
      var chunk := ChunkSize(|cells|, length);
      if chunk == |cells| then Err(DivisionByZero)
      else
        var raw := RawPassword(Mix(History(rule, cells, iterations), sampled), Pool(sel), chunk, length);
        RepairStaysInPool(raw, sel, repairs);
        Ok(Repaired(raw, sel, repairs))
  }

  // ---------------------------------------------------------------------------
  // The generator object

  /** `CellularAutomataPasswordGenerator`: the automaton's parameters and its current row. */
  class Generator {
    const width: nat
    const iterations: nat
    const rule: Rule
    var cells: seq<Bit>

    ghost predicate Valid()
      reads this
    {
      width >= 1 && |cells| == width
    }

    /** `__init__`: a row of `width` dead cells with the middle one live. */
    constructor (width: nat, iterations: nat, rule: Rule)
      requires width >= 1
      ensures Valid()
      ensures this.width == width && this.iterations == iterations && this.rule == rule
      ensures cells == CenterSeed(width)
    {
      this.width := width;
      this.iterations := iterations;
      this.rule := rule;
      var row := Zeros(width);
      cells := row[width / 2 := 1];
    }

    /** `evolve`: replaces the row by its next generation. */
    method Evolve()
      requires Valid()
      modifies this
      ensures Valid()
      ensures cells == Step(rule, old(cells))
    {
      var row := cells;
      var next := new Bit[width];
      for i := 0 to width
        invariant forall j :: 0 <= j < i ==> next[j] == Step(rule, row)[j]
      {
        var left, center, right := row[Prev(i, width)], row[i], row[Next(i, width)];
        next[i] := ApplyRule(rule, left, center, right);
      }
      cells := next[..];
    }

    /** `run_automaton`: records the current row and the next `iterations - 1` generations,
        leaving the last of them as the current row. */
    method RunAutomaton() returns (history: seq<seq<Bit>>)
      requires Valid() && iterations >= 1
      modifies this
      ensures Valid()
      ensures history == History(rule, old(cells), iterations)
      ensures cells == Iterate(rule, old(cells), iterations - 1)
    {
      ghost var first := cells;
      history := [cells];
      for i := 1 to iterations
        invariant Valid()
        invariant cells == Iterate(rule, first, i - 1)
        invariant history == History(rule, first, i)
      {
        Evolve();
        HistorySnoc(rule, first, i);
        history := history + [cells];
      }
    }

    /** `generate_password`: runs the automaton from the current row and derives a password. */
    method GeneratePassword(length: int, sel: Selection, sampled: seq<nat>, repairs: seq<Repair>)
      returns (r: Result<string, GenError>)
      requires Valid()
      requires ChoicesFit(iterations, length, sampled, repairs)
      modifies this
      ensures Valid()
      ensures r == Generated(rule, old(cells), iterations, length, sel, sampled, repairs)
      ensures cells == if sel.AnySelected() && iterations >= 1
                       then Iterate(rule, old(cells), iterations - 1) else old(cells)
    {
      if !sel.AnySelected() {
        return Err(NoCharacterSet);
      }
      var pool := Pool(sel);
      if iterations == 0 {
        return Err(EmptyHistory);
      }
      var history := RunAutomaton();
      HistoryRecurrence(rule, old(cells), iterations);
      var combined := MixRows(history, sampled);
      if length == 0 {
        return Err(DivisionByZero);
      }
      if length < 0 {
        // the repair pass of an empty password draws `random.randint(0, -1)`
        return Err(EmptyRandomRange);
      }
      var chunk := ChunkSize(width, length);
      assert |combined| == width;
      if width - chunk == 0 {
        // `start_idx` of the first character divides by zero
        return Err(DivisionByZero);
      }
      var chars := ChunkCharacters(combined, pool, chunk, length);
      var password := new char[length](i requires 0 <= i < length => chars[i]);
      assert password[..] == chars;
      EnsureCharacterTypes(password, sel, repairs);
      r := Ok(password[..]);
    }

    /** The mixing loop of `generate_password`: the last row exclusive-or'ed with each sampled row. */
    method MixRows(history: seq<seq<Bit>>, sampled: seq<nat>) returns (combined: seq<Bit>)
      requires |history| >= 1
      requires forall k :: 0 <= k < |history| ==> |history[k]| == |history[0]|
      requires forall k :: 0 <= k < |sampled| ==> sampled[k] < |history|
      ensures combined == Mix(history, sampled)
    {
      var last := history[|history| - 1];
      var rows := SampledRows(history, sampled);
      combined := last;
      for k := 0 to |rows|
        invariant combined == XorFold(last, rows[..k])
      {
        assert rows[..k + 1][..k] == rows[..k];
        combined := Xor(combined, rows[k]);
      }
      assert rows[..|rows|] == rows;
    }

    /** The character loop of `generate_password`: one pool character per chunk of the mixed row. */
    method ChunkCharacters(combined: seq<Bit>, pool: string, chunk: nat, length: nat) returns (password: string)
      requires 1 <= chunk < |combined| && |pool| > 0
      ensures password == RawPassword(combined, pool, chunk, length)
    {
      password := [];
      for i := 0 to length
        invariant |password| == i
        invariant forall j :: 0 <= j < i ==> password[j] == CharAt(combined, pool, chunk, j)
      {
        var start := (i * chunk) % (|combined| - chunk);
        var value := BitsValue(combined[start..start + chunk]) % |pool|;
        password := password + [pool[value]];
      }
    }

    /** `_ensure_character_types`: one replacement for every selected class the password lacks. */
    method EnsureCharacterTypes(password: array<char>, sel: Selection, repairs: seq<Repair>)
      requires RepairsFit(repairs, password.Length)
      modifies password
      ensures password[..] == Repaired(old(password[..]), sel, repairs)
    {
      ghost var orig := password[..];
      var hasLower := HasAnyOf(password[..], Lowercase);
      var hasUpper := HasAnyOf(password[..], Uppercase);
      var hasDigit := HasAnyOf(password[..], Digits);
      var hasSpecial := HasAnyOf(password[..], Specials);
      if sel.lowercase && !hasLower {
        ReplaceCharacter(password, Lowercase, repairs[0].index, repairs[0].choice);
      }
      ghost var p0 := password[..];
      assert p0 == RepairStep(orig, orig, sel, repairs, 0);
      if sel.uppercase && !hasUpper {
        ReplaceCharacter(password, Uppercase, repairs[1].index, repairs[1].choice);
      }
      ghost var p1 := password[..];
      assert p1 == RepairStep(orig, p0, sel, repairs, 1);
      if sel.digits && !hasDigit {
        ReplaceCharacter(password, Digits, repairs[2].index, repairs[2].choice);
      }
      ghost var p2 := password[..];
      assert p2 == RepairStep(orig, p1, sel, repairs, 2);
      if sel.special && !hasSpecial {
        ReplaceCharacter(password, Specials, repairs[3].index, repairs[3].choice);
      }
      assert password[..] == RepairStep(orig, p2, sel, repairs, 3);
    }

    /** `_replace_character`: overwrites the drawn position with the drawn character of the class. */
    method ReplaceCharacter(password: array<char>, charSet: string, index: nat, choice: nat)
      requires index < password.Length && choice < |charSet|
      modifies password
      ensures password[index] in charSet
      ensures password[..] == old(password[..])[index := charSet[choice]]
    {
      password[index] := charSet[choice];
    }
  }

  // ---------------------------------------------------------------------------
  // Properties of the automaton

  /** The seed row has width w and exactly one live cell, at w / 2. */
  lemma {:induction false} CenterSeedHasOneLiveCell(w: nat)
    requires w >= 1
    ensures |CenterSeed(w)| == w && CenterSeed(w)[w / 2] == 1
    ensures forall i :: 0 <= i < w && i != w / 2 ==> CenterSeed(w)[i] == 0
    ensures CountOnes(CenterSeed(w)) == 1
  {
    OnesOfSingleton(w, w / 2);
  }

  lemma {:induction false} OnesOfSingleton(w: nat, p: nat)
    requires p < w
    ensures CountOnes(Zeros(w)[p := 1]) == 1
  {
    var row := Zeros(w)[p := 1];
    if p == 0 {
      assert row[1..] == Zeros(w - 1);
      ZerosHaveNoOnes(w - 1);
    } else {
      assert row[1..] == Zeros(w - 1)[p - 1 := 1];
      OnesOfSingleton(w - 1, p - 1);
    }
  }

  lemma {:induction false} ZerosHaveNoOnes(w: nat)
    ensures CountOnes(Zeros(w)) == 0
  {
    if w > 0 {
      assert Zeros(w)[1..] == Zeros(w - 1);
      ZerosHaveNoOnes(w - 1);
    }
  }

  /** Rule 0 kills every neighbourhood and rule 255 brings every one to life. */
  lemma ExtremeRules(left: Bit, center: Bit, right: Bit)
    ensures ApplyRule(0, left, center, right) == 0
    ensures ApplyRule(255, left, center, right) == 1
  {
    ToBinaryDigit(0, 8, Index(left, center, right));
    ToBinaryDigit(255, 8, Index(left, center, right));
  }

  /** New cell i depends only on the old cells (i - 1) mod w, i and (i + 1) mod w. */
  lemma StepIsLocal(rule: Rule, a: seq<Bit>, b: seq<Bit>, i: nat)
    requires |a| == |b| && i < |a|
    requires a[Prev(i, |a|)] == b[Prev(i, |a|)] && a[i] == b[i] && a[Next(i, |a|)] == b[Next(i, |a|)]
    ensures Step(rule, a)[i] == Step(rule, b)[i]
  {
  }

  /** Row 0 of the history is the starting row and row k is the step of row k - 1. */
  lemma HistoryRecurrence(rule: Rule, row: seq<Bit>, iterations: nat)
    requires iterations >= 1
    ensures History(rule, row, iterations)[0] == row
    ensures forall k :: 1 <= k < iterations ==>
      History(rule, row, iterations)[k] == Step(rule, History(rule, row, iterations)[k - 1])
    ensures forall k :: 0 <= k < iterations ==> |History(rule, row, iterations)[k]| == |row|
  {
  }

  /** A longer run's history extends the shorter one's by the next generation. */
  lemma HistorySnoc(rule: Rule, row: seq<Bit>, n: nat)
    ensures History(rule, row, n + 1) == History(rule, row, n) + [Iterate(rule, row, n)]
  {
  }

  /** Under rule 0 every row after the first is all dead cells. */
  lemma RuleZeroDiesOut(row: seq<Bit>, iterations: nat)
    ensures forall k, i :: 1 <= k < iterations && 0 <= i < |row| ==> History(0, row, iterations)[k][i] == 0
  {
    forall k, i | 1 <= k < iterations && 0 <= i < |row|
      ensures History(0, row, iterations)[k][i] == 0
    {
      var prev := Iterate(0, row, k - 1);
      ExtremeRules(prev[Prev(i, |row|)], prev[i], prev[Next(i, |row|)]);
    }
  }

  /** Cell i of the mixed row is live exactly when an odd number of the mixed rows have it live. */
  lemma {:induction false} XorFoldParity(acc: seq<Bit>, rows: seq<seq<Bit>>, i: nat)
    requires forall k :: 0 <= k < |rows| ==> |rows[k]| == |acc|
    requires i < |acc|
    ensures XorFold(acc, rows)[i] == (acc[i] + ColumnOnes(rows, i)) % 2
  {
    if rows != [] {
      XorFoldParity(acc, rows[..|rows| - 1], i);
    }
  }

  /** A row drawn twice in a row cancels out: `random.randint` may draw the same history
      row for two consecutive samples, and the mixed row is then the last row
      exclusive-or'ed with the remaining draw alone. */
  lemma MixRepeatedDrawCancels(history: seq<seq<Bit>>, sampled: seq<nat>)
    requires |history| >= 1
    requires forall k :: 0 <= k < |history| ==> |history[k]| == |history[0]|
    requires |sampled| == 3 && forall k :: 0 <= k < 3 ==> sampled[k] < |history|
    ensures sampled[0] == sampled[1] ==> Mix(history, sampled) == Xor(history[|history| - 1], history[sampled[2]])
    ensures sampled[1] == sampled[2] ==> Mix(history, sampled) == Xor(history[|history| - 1], history[sampled[0]])
  {
    var last := history[|history| - 1];
    var rows := SampledRows(history, sampled);
    assert rows[..2][..1] == rows[..1] && rows[..1][..0] == rows[..0];
    var x0 := Xor(last, rows[0]);
    assert XorFold(last, rows[..1]) == x0;
    var x1 := Xor(x0, rows[1]);
    assert XorFold(last, rows[..2]) == x1;
    assert XorFold(last, rows) == Xor(x1, rows[2]);
    if sampled[0] == sampled[1] {
      XorCancels(last, rows[0]);
    }
    if sampled[1] == sampled[2] {
      XorCancels(x0, rows[1]);
    }
  }

  // ---------------------------------------------------------------------------
  // Properties of the derivation

  /** A character is in the pool exactly when it belongs to one of the selected classes. */
  lemma PoolMembers(sel: Selection, c: char)
    ensures c in Pool(sel) <==> (sel.lowercase && c in Lowercase) || (sel.uppercase && c in Uppercase)
                                || (sel.digits && c in Digits) || (sel.special && c in Specials)
  {
  }

  /** Every chunk a password reads lies inside the row, and `start_idx` divides by zero exactly
      when the chunk is the whole row, that is for length 1 or width 1. */
  lemma ChunksFitRow(width: nat, length: nat, i: nat)
    requires width >= 1 && length >= 1
    ensures 1 <= ChunkSize(width, length) <= width
    ensures ChunkSize(width, length) < width ==>
      ChunkStart(i, ChunkSize(width, length), width) + ChunkSize(width, length) <= width
    ensures ChunkSize(width, length) == width <==> length == 1 || width == 1
  {
    if length >= 2 && width >= 2 {
      QuotientBelow(width, length);
    }
  }

  /** Dividing by at least two makes a positive number smaller. */
  lemma QuotientBelow(w: nat, l: nat)
    requires w >= 1 && l >= 2
    ensures w / l < w
  {
    var q := w / l;
    assert q * l <= w;
    assert q * l >= q * 2;
  }

  /** Before repair, character i is the pool's character at the chunk's value modulo the pool size. */
  lemma RawCharacterIsPoolEntry(combined: seq<Bit>, pool: string, chunk: nat, length: nat, i: nat)
    requires 1 <= chunk < |combined| && |pool| > 0 && i < length
    ensures var start := ChunkStart(i, chunk, |combined|);
            var v := BitsValue(combined[start..start + chunk]) % |pool|;
            0 <= v < |pool| && RawPassword(combined, pool, chunk, length)[i] == pool[v]
  {
  }

  /** `start_idx` wraps around with period `width - chunk`, so the chunks repeat. */
  lemma ChunkStartPeriodic(i: nat, chunk: nat, width: nat)
    requires chunk < width
    ensures ChunkStart(i + (width - chunk), chunk, width) == ChunkStart(i, chunk, width)
  {
    var p := width - chunk;
    var x := i * chunk;
    var q := x / p;
    assert x == q * p + x % p;
    assert (i + p) * chunk == (q + chunk) * p + x % p;
    ModUnique((i + p) * chunk, p, q + chunk, x % p);
  }

  /** The remainder is unique: y = k·p + r with r below p makes r the remainder of y modulo p. */
  lemma ModUnique(y: nat, p: nat, k: nat, r: nat)
    requires p >= 1 && r < p && y == k * p + r
    ensures y % p == r
  {
    var q, s := y / p, y % p;
    var d: int := k - q;
    assert d * p == k * p - q * p;
    assert d * p == s - r;
  }

  /** Before repair, the password repeats with period `width - chunk`: character i + width - chunk
      is character i. With width 100 and length 200, for instance, the chunk is 1 and the
      period 99. */
  lemma RawPasswordPeriodic(combined: seq<Bit>, pool: string, chunk: nat, length: nat, i: nat)
    requires 1 <= chunk < |combined| && |pool| > 0
    requires i + (|combined| - chunk) < length
    ensures RawPassword(combined, pool, chunk, length)[i + (|combined| - chunk)]
            == RawPassword(combined, pool, chunk, length)[i]
  {
    ChunkStartPeriodic(i, chunk, |combined|);
  }

  /** `generate_password` fails exactly when no class is selected, the run has no iterations,
      the length is not positive, or a chunk spans the whole row (length 1 or width 1). */
  lemma GeneratedFailsExactly(rule: Rule, cells: seq<Bit>, iterations: nat, length: int, sel: Selection,
                              sampled: seq<nat>, repairs: seq<Repair>)
    requires |cells| >= 1
    requires ChoicesFit(iterations, length, sampled, repairs)
    ensures Generated(rule, cells, iterations, length, sel, sampled, repairs) == Err(NoCharacterSet)
            <==> !sel.AnySelected()
    ensures Generated(rule, cells, iterations, length, sel, sampled, repairs).Err?
            <==> !sel.AnySelected() || iterations == 0 || length <= 1 || |cells| == 1
  {
    if sel.AnySelected() && iterations >= 1 && length >= 1 {
      ChunksFitRow(|cells|, length, 0);
    }
  }

  // ---------------------------------------------------------------------------
  // Properties of the repair pass

  /** A password that already has every selected class is left as it is. */
  lemma RepairKeepsCompletePassword(pw: string, sel: Selection, repairs: seq<Repair>)
    requires RepairsFit(repairs, |pw|)
    requires forall k :: 0 <= k < 4 ==> !Missing(pw, sel, k)
    ensures Repaired(pw, sel, repairs) == pw
  {
  }

  /** Every replacement comes from a selected class, so a password within the pool stays within it. */
  lemma RepairStaysInPool(pw: string, sel: Selection, repairs: seq<Repair>)
    requires RepairsFit(repairs, |pw|)
    requires forall i :: 0 <= i < |pw| ==> pw[i] in Pool(sel)
    ensures forall i :: 0 <= i < |pw| ==> Repaired(pw, sel, repairs)[i] in Pool(sel)
  {
    var p0 := RepairStep(pw, pw, sel, repairs, 0);
    StepStaysInPool(pw, pw, sel, repairs, 0);
    var p1 := RepairStep(pw, p0, sel, repairs, 1);
    StepStaysInPool(pw, p0, sel, repairs, 1);
    var p2 := RepairStep(pw, p1, sel, repairs, 2);
    StepStaysInPool(pw, p1, sel, repairs, 2);
    StepStaysInPool(pw, p2, sel, repairs, 3);
  }

  /** One repair step keeps a pool-only password pool-only. */
  lemma StepStaysInPool(orig: string, cur: string, sel: Selection, repairs: seq<Repair>, k: nat)
    requires k < 4 && |cur| == |orig| && RepairsFit(repairs, |orig|)
    requires forall i :: 0 <= i < |cur| ==> cur[i] in Pool(sel)
    ensures forall i :: 0 <= i < |cur| ==> RepairStep(orig, cur, sel, repairs, k)[i] in Pool(sel)
  {
    if Missing(orig, sel, k) {
      PoolMembers(sel, ClassChars(k)[repairs[k].choice]);
    }
  }

  /** A position no repair is drawn for keeps its character. */
  lemma RepairTouchesOnlyDrawnPositions(pw: string, sel: Selection, repairs: seq<Repair>, i: nat)
    requires RepairsFit(repairs, |pw|) && i < |pw|
    requires forall k :: 0 <= k < 4 && Missing(pw, sel, k) ==> repairs[k].index != i
    ensures Repaired(pw, sel, repairs)[i] == pw[i]
  {
  }

  /** The repair pass supplies every selected class when the drawn positions of the missing classes
      are distinct and each selected class already present also occurs at an undrawn position. */
  lemma RepairSuppliesSelectedClasses(pw: string, sel: Selection, repairs: seq<Repair>)
    requires RepairsFit(repairs, |pw|)
    requires forall k, m :: 0 <= k < m < 4 && Missing(pw, sel, k) && Missing(pw, sel, m) ==>
      repairs[k].index != repairs[m].index
    requires forall k :: 0 <= k < 4 && sel.Has(k) && !Missing(pw, sel, k) ==>
      exists i :: 0 <= i < |pw| && pw[i] in ClassChars(k) &&
        forall m :: 0 <= m < 4 && Missing(pw, sel, m) ==> repairs[m].index != i
    ensures forall k :: 0 <= k < 4 && sel.Has(k) ==> HasAnyOf(Repaired(pw, sel, repairs), ClassChars(k))
  {
    var fixed := Repaired(pw, sel, repairs);
    forall k | 0 <= k < 4 && sel.Has(k)
      ensures HasAnyOf(fixed, ClassChars(k))
    {
      if Missing(pw, sel, k) {
        var i := repairs[k].index;
        assert fixed[i] == ClassChars(k)[repairs[k].choice];
      } else {
        var i :| 0 <= i < |pw| && pw[i] in ClassChars(k) &&
          forall m :: 0 <= m < 4 && Missing(pw, sel, m) ==> repairs[m].index != i;
        RepairTouchesOnlyDrawnPositions(pw, sel, repairs, i);
        assert fixed[i] in ClassChars(k);
      }
    }
  }

  /** Without that condition a later repair can overwrite an earlier one: with every class selected,
      a password of lowercase letters whose repairs are all drawn at one position ends with that
      position holding a special character and no uppercase letter or digit anywhere. */
  lemma RepairCanLoseAClass(pw: string, repairs: seq<Repair>)
    requires RepairsFit(repairs, |pw|)
    requires forall i :: 0 <= i < |pw| ==> IsLower(pw[i])
    requires forall k :: 0 <= k < 4 ==> repairs[k].index == repairs[0].index
    ensures Repaired(pw, Selection(true, true, true, true), repairs)
            == pw[repairs[0].index := Specials[repairs[3].choice]]
    ensures !HasUpper(Repaired(pw, Selection(true, true, true, true), repairs))
    ensures !HasDigit(Repaired(pw, Selection(true, true, true, true), repairs))
  {
    LowercaseMissesOtherClasses(pw, Selection(true, true, true, true));
    SpecialsAreSymbols(Specials[repairs[3].choice]);
  }

  /** A password of lowercase letters lacks exactly the uppercase, digit and special classes. */
  lemma LowercaseMissesOtherClasses(pw: string, sel: Selection)
    requires |pw| >= 1 && forall i :: 0 <= i < |pw| ==> IsLower(pw[i])
    ensures !Missing(pw, sel, 0)
    ensures forall k :: 1 <= k < 4 ==> (Missing(pw, sel, k) <==> sel.Has(k))
  {
    LowercaseMembers(pw[0]);
    forall k, i | 1 <= k < 4 && 0 <= i < |pw|
      ensures pw[i] !in ClassChars(k)
    {
      ClassMembership(pw[i]);
      SpecialsAreSymbols(pw[i]);
    }
  }

}
