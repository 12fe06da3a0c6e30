/**
 * The interpreter loop of `parse` (src/main.rs:82-85, 97-114): a growable byte
 * tape, a head, an instruction index, an input vector popped from its end and
 * an output vector. `Step` is one iteration of the loop as a function, `Run`
 * iterates it under a step budget, and `Execute` is the loop itself.
 */
module Machine {
  import opened Tokens
  import opened Wrappers
  import opened Brackets

  /** A `u8` cell. */
  newtype Byte = b: int | 0 <= b < 256

  /** `cell.wrapping_add(n as u8)`: the count is truncated to a byte, then added modulo 256. */
  function WrappingAdd(cell: Byte, n: nat): Byte {
    ((cell as int + n % 256) % 256) as Byte
  }

  /** `cell.wrapping_sub(n as u8)`. */
  function WrappingSub(cell: Byte, n: nat): Byte {
    ((cell as int - n % 256) % 256) as Byte
  }

  /** Shifting by whole multiples of 256 leaves the residue unchanged. */
  lemma ModShift(x: int, q: int)
    ensures (x + 256 * q) % 256 == x % 256
  {
    var r := x % 256;
    var d := x / 256;
    assert x == 256 * d + r;
    assert x + 256 * q == 256 * (d + q) + r;
  }

  /** Truncating the count first loses nothing: the result is the sum (difference) modulo 256. */
  lemma WrappingIsModular(cell: Byte, n: nat)
    ensures WrappingAdd(cell, n) as int == (cell as int + n) % 256
    ensures WrappingSub(cell, n) as int == (cell as int - n) % 256
  {
    var q := n / 256;
    assert n == 256 * q + n % 256;
    ModShift(cell as int + n % 256, q);
    ModShift(cell as int - n % 256, -q);
  }

  /** One unfused `+` and one unfused `-`. */
  function IncOnce(cell: Byte): Byte { if cell == 255 then 0 else cell + 1 }
  function DecOnce(cell: Byte): Byte { if cell == 0 then 255 else cell - 1 }

  /** `k` unfused `+` (or `-`) applied one at a time. */
  function Increments(cell: Byte, k: nat): Byte {
    if k == 0 then cell else IncOnce(Increments(cell, k - 1))
  }
  function Decrements(cell: Byte, k: nat): Byte {
    if k == 0 then cell else DecOnce(Decrements(cell, k - 1))
  }

  /** One `+` is addition modulo 256, one `-` subtraction modulo 256. */
  lemma OnceIsModular(cell: Byte, x: int)
    requires cell as int == x % 256
    ensures IncOnce(cell) as int == (x + 1) % 256
    ensures DecOnce(cell) as int == (x - 1) % 256
  {
    ModShift(cell as int + 1, x / 256);
    ModShift(cell as int - 1, x / 256);
  }

  /** `k` single `+` (`-`) steps add (subtract) `k` modulo 256. */
  lemma {:induction false} RepeatedIsModular(cell: Byte, k: nat)
    ensures Increments(cell, k) as int == (cell as int + k) % 256
    ensures Decrements(cell, k) as int == (cell as int - k) % 256
  {
    if k > 0 {
      RepeatedIsModular(cell, k - 1);
      OnceIsModular(Increments(cell, k - 1), cell as int + k - 1);
      OnceIsModular(Decrements(cell, k - 1), cell as int - k + 1);
    }
  }

  /** A fused `Inc(n)` or `Dec(n)` does to a cell exactly what `n` single steps do. */
  lemma FusedCellIsRepeated(cell: Byte, n: nat)
    ensures WrappingAdd(cell, n) == Increments(cell, n)
    ensures WrappingSub(cell, n) == Decrements(cell, n)
  {
    RepeatedIsModular(cell, n);
    WrappingIsModular(cell, n);
  }

  /** Reducing the first summand modulo 256 first does not change the sum modulo 256. */
  lemma ModAdd(x: int, y: int)
    ensures (x % 256 + y) % 256 == (x + y) % 256
  {
    var q := x / 256;
    assert x == 256 * q + x % 256;
    ModShift(x % 256 + y, q);
  }

  /** Adding `a` then `b` is adding `a + b`: fusing a run of `+` is sound on cells. */
  lemma AddCompose(cell: Byte, a: nat, b: nat)
    ensures WrappingAdd(WrappingAdd(cell, a), b) == WrappingAdd(cell, a + b)
  {
    var m := WrappingAdd(cell, a);
    WrappingIsModular(cell, a);
    WrappingIsModular(m, b);
    WrappingIsModular(cell, a + b);
    ModAdd(cell as int + a, b);
    assert WrappingAdd(m, b) as int == WrappingAdd(cell, a + b) as int;
  }

  /** Subtracting `a` then `b` is subtracting `a + b`: fusing a run of `-` is sound on cells. */
  lemma SubCompose(cell: Byte, a: nat, b: nat)
    ensures WrappingSub(WrappingSub(cell, a), b) == WrappingSub(cell, a + b)
  {
    var m := WrappingSub(cell, a);
    WrappingIsModular(cell, a);
    WrappingIsModular(m, b);
    WrappingIsModular(cell, a + b);
    ModAdd(cell as int - a, -(b as int));
    assert WrappingSub(m, b) as int == WrappingSub(cell, a + b) as int;
  }

  /** `n` fresh zero cells, as `vec![0; n]`. */
  function Zeros(n: nat): (z: seq<Byte>)
    ensures |z| == n && forall i :: 0 <= i < n ==> z[i] == 0
  {
    seq(n, _ => 0)
  }

  /**
   * `RIG(N)` on the tape: when the head would reach or pass the end, `N` zero
   * cells are appended (however far past the end the head lands), then the
   * head moves `N` to the right.
   */
  function MoveRight(tape: seq<Byte>, pointer: nat, n: nat): (r: (seq<Byte>, nat))
    requires pointer < |tape|
    ensures r.1 == pointer + n && r.1 < |r.0|
    ensures |r.0| == if pointer + n >= |tape| then |tape| + n else |tape|
    ensures r.0[..|tape|] == tape
    ensures forall i :: |tape| <= i < |r.0| ==> r.0[i] == 0
  {
    if pointer + n >= |tape| then (tape + Zeros(n), pointer + n) else (tape, pointer + n)
  }

  /** Two tapes hold the same cells, except that the longer one may carry extra zero cells at its end. */
  ghost predicate AgreeUpToZeros(t1: seq<Byte>, t2: seq<Byte>) {
    (forall i :: 0 <= i < |t1| && i < |t2| ==> t1[i] == t2[i])
    && (forall i :: |t2| <= i < |t1| ==> t1[i] == 0)
    && (forall i :: |t1| <= i < |t2| ==> t2[i] == 0)
  }

  /**
   * Fusing `>` runs is sound up to trailing zeros: `RIG(a)` then `RIG(b)` puts the
   * head where `RIG(a + b)` does, and the two tapes differ only in how many
   * zero cells were appended.
   */
  lemma RightCompose(tape: seq<Byte>, pointer: nat, a: nat, b: nat)
    requires pointer < |tape|
    ensures MoveRight(MoveRight(tape, pointer, a).0, MoveRight(tape, pointer, a).1, b).1 == MoveRight(tape, pointer, a + b).1
    ensures AgreeUpToZeros(MoveRight(MoveRight(tape, pointer, a).0, MoveRight(tape, pointer, a).1, b).0, MoveRight(tape, pointer, a + b).0)
  {
    var (t1, p1) := MoveRight(tape, pointer, a);
    var (t2, p2) := MoveRight(t1, p1, b);
    var (t3, p3) := MoveRight(tape, pointer, a + b);
    forall i | 0 <= i < |t2| && i < |t3|
      ensures t2[i] == t3[i]
    {
      if i < |tape| {
        assert t1[i] == t1[..|tape|][i];
        assert t2[i] == t2[..|t1|][i];
        assert t3[i] == t3[..|tape|][i];
      } else if i < |t1| {
        assert t2[i] == t2[..|t1|][i];
      }
    }
  }

  /** The interpreter's variables: `stack` (the tape), `pointer`, `idx`, `input` and `out`. */
  datatype State = State(tape: seq<Byte>, pointer: nat, idx: nat, input: seq<Byte>, out: seq<Byte>)
  {
    /** The head is on a materialised cell. */
    predicate Valid() { pointer < |tape| }
  }

  /** The state before the loop: one zero cell under the head, at the first token (lines 82-85). */
  function Init(input: seq<Byte>): (s: State)
    ensures s.Valid() && s.idx == 0 && s.out == [] && s.input == input
    ensures s.tape == [0] && s.pointer == 0
  {
    State([0], 0, 0, input, [])
  }

  /** How the program panics at run time: `pointer - N` underflows, or a jump target is missing from the table. */
  datatype Fault = PointerUnderflow(at: nat) | MissingJump(at: nat)

  /** Whether the bracket at `idx` jumps: `Jum` on a zero cell, `Bac` on a non-zero cell. */
  predicate Taken(t: Token, cell: Byte) {
    (t == Jum && cell == 0) || (t == Bac && cell != 0)
  }

  /** One iteration of the `while` loop, `idx += 1` included (lines 100-112). */
  function Step(tokens: seq<Token>, jumps: map<nat, nat>, s: State): (r: Result<State, Fault>)
    requires s.Valid() && s.idx < |tokens|
    ensures r.Ok? ==> r.value.Valid() && |r.value.tape| >= |s.tape|
    ensures r.Err? ==> r.error.at == s.idx
  {
    var p := s.pointer;
    var next := s.idx + 1;
    match tokens[s.idx]
    case Rig(n) =>
      var (tape', pointer') := MoveRight(s.tape, p, n);
      Ok(s.(tape := tape', pointer := pointer', idx := next))
    case Lef(n) =>
      // `pointer - N >= 0` holds for every `usize`: the subtraction itself is what fails.
      if n <= p then Ok(s.(pointer := p - n, idx := next)) else Err(PointerUnderflow(s.idx))
    case Inc(n) => Ok(s.(tape := s.tape[p := WrappingAdd(s.tape[p], n)], idx := next))
    case Dec(n) => Ok(s.(tape := s.tape[p := WrappingSub(s.tape[p], n)], idx := next))
    case Jum =>
      if s.tape[p] == 0 then
        if s.idx in jumps then Ok(s.(idx := jumps[s.idx] + 1)) else Err(MissingJump(s.idx))
      else Ok(s.(idx := next))
    case Bac =>
      if s.tape[p] != 0 then
        if s.idx in jumps then Ok(s.(idx := jumps[s.idx] + 1)) else Err(MissingJump(s.idx))
      else Ok(s.(idx := next))
    case Acc =>
      if s.input == [] then Ok(s.(tape := s.tape[p := 0], idx := next))
      else Ok(s.(tape := s.tape[p := s.input[|s.input| - 1]], input := s.input[..|s.input| - 1], idx := next))
    case Out => Ok(s.(out := s.out + [s.tape[p]], idx := next))
    case Nan => Ok(s.(idx := next))
  }

  /** `RIG(N)` moves the head `N` to the right over a tape that only grows, by zero cells (lines 101-102). */
  lemma StepRight(tokens: seq<Token>, jumps: map<nat, nat>, s: State)
    requires s.Valid() && s.idx < |tokens| && tokens[s.idx].Rig?
    ensures Step(tokens, jumps, s).Ok?
    ensures var t := Step(tokens, jumps, s).value;
      t.pointer == s.pointer + tokens[s.idx].n && t.idx == s.idx + 1
      && t.tape[..|s.tape|] == s.tape && (forall i :: |s.tape| <= i < |t.tape| ==> t.tape[i] == 0)
      && t.input == s.input && t.out == s.out
  {
  }

  /** `LEF(N)` moves the head `N` to the left, and panics exactly when that would pass the first cell (line 103). */
  lemma StepLeft(tokens: seq<Token>, jumps: map<nat, nat>, s: State)
    requires s.Valid() && s.idx < |tokens| && tokens[s.idx].Lef?
    ensures Step(tokens, jumps, s).Ok? <==> tokens[s.idx].n <= s.pointer
    ensures Step(tokens, jumps, s).Ok? ==>
      Step(tokens, jumps, s).value == s.(pointer := s.pointer - tokens[s.idx].n, idx := s.idx + 1)
    ensures Step(tokens, jumps, s).Err? ==> Step(tokens, jumps, s).error == PointerUnderflow(s.idx)
  {
  }

  /** `INC(N)` and `DEC(N)` add or subtract `N` modulo 256 in the cell under the head and touch nothing else (lines 104-105). */
  lemma StepCell(tokens: seq<Token>, jumps: map<nat, nat>, s: State)
    requires s.Valid() && s.idx < |tokens| && (tokens[s.idx].Inc? || tokens[s.idx].Dec?)
    ensures Step(tokens, jumps, s).Ok?
    ensures var t := Step(tokens, jumps, s).value;
      |t.tape| == |s.tape| && t.pointer == s.pointer && t.idx == s.idx + 1
      && t.input == s.input && t.out == s.out
      && (forall i :: 0 <= i < |s.tape| && i != s.pointer ==> t.tape[i] == s.tape[i])
      && t.tape[s.pointer] as int
         == (s.tape[s.pointer] as int + (if tokens[s.idx].Inc? then tokens[s.idx].n as int else -(tokens[s.idx].n as int))) % 256
  {
    WrappingIsModular(s.tape[s.pointer], tokens[s.idx].n);
  }

  /**
   * `JUM` on a zero cell and `BAC` on a non-zero cell continue after the
   * bracket the table pairs with this one, and panic when the table has no
   * entry; otherwise they fall through (lines 106-107, 112).
   */
  lemma StepJump(tokens: seq<Token>, jumps: map<nat, nat>, s: State)
    requires s.Valid() && s.idx < |tokens| && (tokens[s.idx] == Jum || tokens[s.idx] == Bac)
    ensures Step(tokens, jumps, s).Err? <==> Taken(tokens[s.idx], s.tape[s.pointer]) && s.idx !in jumps
    ensures Step(tokens, jumps, s).Err? ==> Step(tokens, jumps, s).error == MissingJump(s.idx)
    ensures Step(tokens, jumps, s).Ok? ==>
      Step(tokens, jumps, s).value
      == s.(idx := if Taken(tokens[s.idx], s.tape[s.pointer]) then jumps[s.idx] + 1 else s.idx + 1)
  {
  }

  /**
   * `ACC` stores the last pending input byte in the cell and drops it from the
   * input, or stores 0 once the input is exhausted (line 108).
   */
  lemma StepRead(tokens: seq<Token>, jumps: map<nat, nat>, s: State)
    requires s.Valid() && s.idx < |tokens| && tokens[s.idx] == Acc
    ensures Step(tokens, jumps, s).Ok?
    ensures var t := Step(tokens, jumps, s).value;
      t.pointer == s.pointer && t.idx == s.idx + 1 && t.out == s.out
      && t.tape == s.tape[s.pointer := t.tape[s.pointer]]
      && (s.input == [] ==> t.input == [] && t.tape[s.pointer] == 0)
      && (s.input != [] ==> t.input + [t.tape[s.pointer]] == s.input)
  {
  }

  /** `OUT` appends the cell under the head to the output and changes nothing else (line 109). */
  lemma StepWrite(tokens: seq<Token>, jumps: map<nat, nat>, s: State)
    requires s.Valid() && s.idx < |tokens| && tokens[s.idx] == Out
    ensures Step(tokens, jumps, s) == Ok(s.(out := s.out + [s.tape[s.pointer]], idx := s.idx + 1))
  {
  }

  /** `NAN`, and every other token the `match` does not name, only advances the index (lines 110, 112). */
  lemma StepNan(tokens: seq<Token>, jumps: map<nat, nat>, s: State)
    requires s.Valid() && s.idx < |tokens| && tokens[s.idx] == Nan
    ensures Step(tokens, jumps, s) == Ok(s.(idx := s.idx + 1))
  {
  }

  /** The two ways a step panics, and no other (lines 103, 106-107). */
  lemma StepFaults(tokens: seq<Token>, jumps: map<nat, nat>, s: State)
    requires s.Valid() && s.idx < |tokens|
    ensures Step(tokens, jumps, s).Err? <==>
      (tokens[s.idx].Lef? && tokens[s.idx].n > s.pointer)
      || (Taken(tokens[s.idx], s.tape[s.pointer]) && s.idx !in jumps)
  {
  }

  /**
   * `MoveLeft` is what the guard on line 103 evidently means: a head that
   * would pass the first cell stays put while `N` zero cells are spliced in
   * front of the tape, so it lands on the cell `N` to the left of where it was.
   */
  function MoveLeft(tape: seq<Byte>, pointer: nat, n: nat): (r: (seq<Byte>, nat))
    requires pointer < |tape|
    ensures r.1 < |r.0|
    ensures |r.0| == if n <= pointer then |tape| else |tape| + n
  {
    if n <= pointer then (tape, pointer - n) else (Zeros(n) + tape, pointer)
  }

  /**
   * Measured from the old first cell, the head of `MoveLeft` is `N` cells to
   * the left of where it was, every old cell keeps its contents, and every
   * new cell is zero.
   */
  lemma MoveLeftLands(tape: seq<Byte>, pointer: nat, n: nat)
    requires pointer < |tape|
    ensures var (t, q) := MoveLeft(tape, pointer, n); var shift := |t| - |tape|;
      q - shift == pointer - n
      && (forall k :: 0 <= k < |tape| ==> t[k + shift] == tape[k])
      && (forall k :: 0 <= k < shift ==> t[k] == 0)
  {
    var (t, q) := MoveLeft(tape, pointer, n);
    if n > pointer {
      forall k | 0 <= k < |tape|
        ensures t[k + n] == tape[k]
      {
        assert t[k + n] == (Zeros(n) + tape)[k + n];
      }
    }
  }

  /** Wherever the executor as written does not panic on `LEF(N)`, it moves the head as `MoveLeft` does. */
  lemma MoveLeftAgrees(tokens: seq<Token>, jumps: map<nat, nat>, s: State)
    requires s.Valid() && s.idx < |tokens| && tokens[s.idx].Lef? && Step(tokens, jumps, s).Ok?
    ensures (Step(tokens, jumps, s).value.tape, Step(tokens, jumps, s).value.pointer)
         == MoveLeft(s.tape, s.pointer, tokens[s.idx].n)
  {
  }

  /**
   * The discrepancy on line 103: `pointer - N >= 0` holds for every `usize`,
   * so the splicing branch is dead and the head on the first cell panics on
   * `<` instead of landing on a fresh zero cell.
   */
  lemma LeftPastStartFaults(input: seq<Byte>)
    ensures Step([Lef(1)], map[], Init(input)) == Err(PointerUnderflow(0))
    ensures MoveLeft(Init(input).tape, 0, 1) == ([0, 0], 0)
  {
    assert Zeros(1) + [0] == [0, 0];
  }

  /** How a run ends: off the end of the stream, at a panic, or with the step budget spent. */
  datatype Outcome = Halted(final: State) | Stuck(fault: Fault, at: State) | OutOfFuel(at: State)

  /** The loop run for at most `fuel` iterations. */
  function Run(tokens: seq<Token>, jumps: map<nat, nat>, s: State, fuel: nat): (r: Outcome)
    requires s.Valid()
    ensures r.Halted? ==> r.final.idx >= |tokens| && r.final.Valid()
    ensures r.Stuck? ==> r.at.idx < |tokens| && r.at.Valid() && Step(tokens, jumps, r.at) == Err(r.fault)
    decreases fuel
  {
    if s.idx >= |tokens| then Halted(s)
    else if fuel == 0 then OutOfFuel(s)
    else
      match Step(tokens, jumps, s)
      case Err(f) => Stuck(f, s)
      case Ok(s') => Run(tokens, jumps, s', fuel - 1)
  }

  /** One iteration of `Run`, when the step succeeds. */
  lemma RunUnfold(tokens: seq<Token>, jumps: map<nat, nat>, s: State, fuel: nat)
    requires s.Valid() && s.idx < |tokens| && fuel > 0 && Step(tokens, jumps, s).Ok?
    ensures Run(tokens, jumps, s, fuel) == Run(tokens, jumps, Step(tokens, jumps, s).value, fuel - 1)
  {
  }

  /** A step that panics ends the run there. */
  lemma RunFault(tokens: seq<Token>, jumps: map<nat, nat>, s: State, fuel: nat)
    requires s.Valid() && s.idx < |tokens| && fuel > 0 && Step(tokens, jumps, s).Err?
    ensures Run(tokens, jumps, s, fuel) == Stuck(Step(tokens, jumps, s).error, s)
  {
  }

  /**
   * The body of the loop (lines 100-112): the `match` on the current token,
   * acting on the interpreter's variables, then `idx += 1`.
   */
  method Tick(tokens: seq<Token>, jumps: map<nat, nat>, s: State) returns (r: Result<State, Fault>)
    requires s.Valid() && s.idx < |tokens|
    ensures r == Step(tokens, jumps, s)
  {
    var stack, pointer, idx, pending, out := s.tape, s.pointer, s.idx, s.input, s.out;
    match tokens[idx] {
      case Rig(n) =>
        if pointer + n >= |stack| {
          stack := stack + Zeros(n);
        }
        pointer := pointer + n;
      case Lef(n) =>
        if n > pointer {
          return Err(PointerUnderflow(idx));
        }
        pointer := pointer - n;
      case Inc(n) =>
        stack := stack[pointer := WrappingAdd(stack[pointer], n)];
      case Dec(n) =>
        stack := stack[pointer := WrappingSub(stack[pointer], n)];
      case Jum =>
        if stack[pointer] == 0 {
          if idx !in jumps {
            return Err(MissingJump(idx));
          }
          idx := jumps[idx];
        }
      case Bac =>
        if stack[pointer] != 0 {
          if idx !in jumps {
            return Err(MissingJump(idx));
          }
          idx := jumps[idx];
        }
      case Acc =>
        if pending == [] {
          stack := stack[pointer := 0];
        } else {
          stack := stack[pointer := pending[|pending| - 1]];
          pending := pending[..|pending| - 1];
        }
      case Out =>
        out := out + [stack[pointer]];
      case Nan =>
    }
    idx := idx + 1;
    return Ok(State(stack, pointer, idx, pending, out));
  }

  /** The interpreter loop, with `iter` bounded by `maxIter` (lines 97-114). */
  method Execute(tokens: seq<Token>, jumps: map<nat, nat>, input: seq<Byte>, maxIter: nat) returns (r: Outcome)
    ensures r == Run(tokens, jumps, Init(input), maxIter)
  {
    var s := Init(input);
    var iter: nat := 0;
    while s.idx < |tokens|
      invariant s.Valid() && iter <= maxIter
      invariant Run(tokens, jumps, Init(input), maxIter) == Run(tokens, jumps, s, maxIter - iter)
      decreases maxIter - iter
    {
      if iter == maxIter {
        return OutOfFuel(s);
      }
      var next := Tick(tokens, jumps, s);
      match next {
        case Err(f) =>
          RunFault(tokens, jumps, s, maxIter - iter);
          return Stuck(f, s);
        case Ok(s') =>
          RunUnfold(tokens, jumps, s, maxIter - iter);
          s := s';
      }
      iter := iter + 1;
    }
    return Halted(s);
  }

  /**
   * Under the resolver's jump table a bracket never lacks a target, so a step
   * can only panic on `LEF`; a taken `JUM` resumes just past the `BAC` that
   * closes it and a taken `BAC` just past the `JUM` it closes.
   */
  lemma StepResolved(tokens: seq<Token>, jumps: map<nat, nat>, s: State)
    requires IsJumpTable(tokens, jumps) && s.Valid() && s.idx < |tokens|
    ensures var r := Step(tokens, jumps, s);
      (r.Err? ==> r.error == PointerUnderflow(s.idx))
      && (r.Ok? ==> r.value.idx <= |tokens|)
      && (r.Ok? && tokens[s.idx] == Jum && s.tape[s.pointer] == 0 ==>
            s.idx + 1 < r.value.idx && Closes(tokens, s.idx, r.value.idx - 1))
      && (r.Ok? && tokens[s.idx] == Bac && s.tape[s.pointer] != 0 ==>
            0 < r.value.idx <= s.idx && Closes(tokens, r.value.idx - 1, s.idx))
  {
    StepFaults(tokens, jumps, s);
    if tokens[s.idx] == Jum || tokens[s.idx] == Bac {
      EntryCloses(tokens, jumps, s.idx);
      StepJump(tokens, jumps, s);
    }
  }

  /**
   * A run of a resolved program never panics for want of a jump target, and
   * one that halts does so exactly at the end of the token stream.
   */
  lemma {:induction false} RunResolved(tokens: seq<Token>, jumps: map<nat, nat>, s: State, fuel: nat)
    requires IsJumpTable(tokens, jumps) && s.Valid() && s.idx <= |tokens|
    ensures var r := Run(tokens, jumps, s, fuel);
      (r.Stuck? ==> r.fault.PointerUnderflow?)
      && (r.Halted? ==> r.final.idx == |tokens|)
    decreases fuel
  {
    if s.idx < |tokens| && fuel > 0 {
      StepResolved(tokens, jumps, s);
      if Step(tokens, jumps, s).Ok? {
        RunResolved(tokens, jumps, Step(tokens, jumps, s).value, fuel - 1);
      }
    }
  }

  /** A run that ends within its budget ends the same way under any larger budget. */
  lemma {:induction false} RunFuelMonotone(tokens: seq<Token>, jumps: map<nat, nat>, s: State, fuel: nat, more: nat)
    requires s.Valid() && fuel <= more && !Run(tokens, jumps, s, fuel).OutOfFuel?
    ensures Run(tokens, jumps, s, more) == Run(tokens, jumps, s, fuel)
    decreases fuel
  {
    if s.idx < |tokens| && Step(tokens, jumps, s).Ok? {
      RunFuelMonotone(tokens, jumps, Step(tokens, jumps, s).value, fuel - 1, more - 1);
    }
  }

  /** The state a run ends in, whichever way it ends. */
  function Last(r: Outcome): State {
    match r
    case Halted(t) => t
    case Stuck(_, t) => t
    case OutOfFuel(t) => t
  }

  /**
   * Output is only ever appended to and the tape only ever grows, with the
   * head on a cell: what a run has printed stays printed.
   */
  lemma {:induction false} RunExtends(tokens: seq<Token>, jumps: map<nat, nat>, s: State, fuel: nat)
    requires s.Valid()
    ensures var t := Last(Run(tokens, jumps, s, fuel));
      t.Valid() && |t.out| >= |s.out| && t.out[..|s.out|] == s.out && |t.tape| >= |s.tape|
    decreases fuel
  {
    if s.idx < |tokens| && fuel > 0 && Step(tokens, jumps, s).Ok? {
      var t := Step(tokens, jumps, s).value;
      assert t.out[..|s.out|] == s.out by {
        if tokens[s.idx] == Out {
          StepWrite(tokens, jumps, s);
        }
      }
      RunExtends(tokens, jumps, t, fuel - 1);
      var u := Last(Run(tokens, jumps, t, fuel - 1));
      assert u.out[..|s.out|] == u.out[..|t.out|][..|s.out|];
    }
  }
}
