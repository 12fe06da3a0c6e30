/**
 * The two entry points: `from_source` (src/main.rs:48-78), which lexes, fuses
 * and resolves a program, and `parse` (src/main.rs:81-119), which then sets up
 * the input vector and runs the interpreter loop.
 */
module Pipeline {
  import opened Wrappers
  import opened Tokens
  import opened Fusion
  import opened Brackets
  import opened Machine

  /**
   * `from_source`: the fused token stream and its jump table, or the panic
   * the resolver raises. The tokens are always those of `Fused(Lex(code))`.
   */
  method FromSource(code: string) returns (r: Result<(seq<Token>, map<nat, nat>), ResolveError>)
    ensures r.Ok? <==> Balanced(Fused(Lex(code)))
    ensures r.Ok? ==> r.value.0 == Fused(Lex(code)) && IsJumpTable(r.value.0, r.value.1)
    ensures r.Err? && r.error.UnexpectedAt? ==> FirstUnderflow(Fused(Lex(code)), r.error.idx)
    ensures r.Err? && r.error.Unclosed? ==>
      NeverNegative(Fused(Lex(code)), |Fused(Lex(code))|) && r.error.open != [] && Increasing(r.error.open)
      && forall i :: i in r.error.open <==> Unpaired(Fused(Lex(code)), i)
  {
    var tokens := Fuse(Lex(code));
    var jumps := Resolve(tokens);
    match jumps {
      case Err(e) => return Err(e);
      case Ok(table) => return Ok((tokens, table));
    }
  }

  /** `string.chars().rev()`: the line read from the console, last character first. */
  function Reversed(line: seq<Byte>): (r: seq<Byte>)
    ensures |r| == |line| && forall i :: 0 <= i < |line| ==> r[i] == line[|line| - 1 - i]
  {
    if line == [] then [] else Reversed(line[1..]) + [line[0]]
  }

  /**
   * Because the line is stored reversed and `ACC` pops from the end, the
   * `,` commands read the line front to back: the first one gets the first
   * byte and leaves the rest, still reversed.
   */
  lemma ReadsInOrder(tokens: seq<Token>, jumps: map<nat, nat>, s: State, line: seq<Byte>)
    requires s.Valid() && s.idx < |tokens| && tokens[s.idx] == Acc
    requires s.input == Reversed(line) && line != []
    ensures Step(tokens, jumps, s).Ok?
    ensures Step(tokens, jumps, s).value.tape[s.pointer] == line[0]
    ensures Step(tokens, jumps, s).value.input == Reversed(line[1..])
  {
    StepRead(tokens, jumps, s);
  }

  /**
   * `parse` after the console line is read: the resolver's verdict, or the
   * way the interpreter loop ends within `maxIter` iterations. The input is
   * the reversed line only when the program contains a `,`. Since the jump
   * table of a balanced program is unique, the run is the one under any
   * table that pairs the brackets; it never lacks a jump target, and when it
   * halts it does so at the end of the tokens.
   */
  method Interpret(code: string, line: seq<Byte>, maxIter: nat) returns (r: Result<Outcome, ResolveError>)
    ensures r.Ok? <==> Balanced(Fused(Lex(code)))
    ensures r.Ok? ==> exists jumps :: IsJumpTable(Fused(Lex(code)), jumps)
    ensures r.Ok? ==> forall jumps :: IsJumpTable(Fused(Lex(code)), jumps) ==>
      r.value == Run(Fused(Lex(code)), jumps, Init(if Contains(Fused(Lex(code)), Acc) then Reversed(line) else []), maxIter)
    ensures r.Ok? && r.value.Stuck? ==> r.value.fault.PointerUnderflow?
    ensures r.Ok? && r.value.Halted? ==> r.value.final.idx == |Fused(Lex(code))|
    ensures r.Err? && r.error.UnexpectedAt? ==> FirstUnderflow(Fused(Lex(code)), r.error.idx)
    ensures r.Err? && r.error.Unclosed? ==>
      NeverNegative(Fused(Lex(code)), |Fused(Lex(code))|) && r.error.open != [] && Increasing(r.error.open)
      && forall i :: i in r.error.open <==> Unpaired(Fused(Lex(code)), i)
  {
    var compiled := FromSource(code);
    match compiled {
      case Err(e) =>
        return Err(e);
      case Ok((tokens, jumps)) =>
        var input: seq<Byte> := [];
        if Contains(tokens, Acc) {
          input := Reversed(line);
        }
        var outcome := Execute(tokens, jumps, input, maxIter);
        RunResolved(tokens, jumps, Init(input), maxIter);
        forall other | IsJumpTable(tokens, other)
          ensures outcome == Run(tokens, other, Init(input), maxIter)
        {
          JumpTableUnique(tokens, jumps, other);
        }
        return Ok(outcome);
    }
  }

  /** A two-command source whose commands do not merge compiles to those two tokens behind the sentinel. */
  lemma TwoCommands(c1: char, c2: char)
    requires IsCommand(c1) && IsCommand(c2) && !Merges(FromChar(c1), FromChar(c2))
    ensures Fused(Lex([c1, c2])) == [Nan, FromChar(c1), FromChar(c2)]
  {
    assert Lex([c1, c2]) == [FromChar(c1), FromChar(c2)] by {
      assert [c1, c2][1..] == [c2];
      assert Lex([c2]) == [FromChar(c2)];
    }
    var ts := [FromChar(c1), FromChar(c2)];
    assert ts[..1] == [FromChar(c1)] && ts[..1][..0] == [];
    assert Fused(ts[..1]) == [Nan, FromChar(c1)];
  }

  /** A three-token run that takes the three given steps and halts. */
  lemma RunThree(ts: seq<Token>, s0: State, s1: State, s2: State, s3: State)
    requires |ts| == 3 && s0.Valid() && s0.idx == 0
    requires Step(ts, map[], s0) == Ok(s1) && s1.idx == 1
    requires Step(ts, map[], s1) == Ok(s2) && s2.idx == 2
    requires Step(ts, map[], s2) == Ok(s3) && s3.idx == 3
    ensures Run(ts, map[], s0, 3) == Halted(s3)
  {
    RunUnfold(ts, map[], s0, 3);
    RunUnfold(ts, map[], s1, 2);
    RunUnfold(ts, map[], s2, 1);
  }

  /** The empty program: one step over the sentinel, nothing printed, the tape still `[0]`. */
  lemma EmptyProgram(input: seq<Byte>)
    ensures Fused(Lex("")) == [Nan]
    ensures Run([Nan], map[], Init(input), 1) == Halted(State([0], 0, 1, input, []))
  {
    RunUnfold([Nan], map[], Init(input), 1);
  }

  /** `+++.`: the three `+` fuse into one `INC(3)` behind the sentinel. */
  lemma IncrementsFuse()
    ensures Fused(Lex("+++.")) == [Nan, Inc(3), Out]
  {
    assert Lex("+++.") == [Inc(1), Inc(1), Inc(1), Out];
    var ts := [Inc(1), Inc(1), Inc(1), Out];
    assert ts[..3][..2] == ts[..2] && ts[..2][..1] == ts[..1] && ts[..1][..0] == [];
    assert Fused(ts[..1]) == [Nan, Inc(1)];
    assert Fused(ts[..2]) == [Nan, Inc(2)];
    assert Fused(ts[..3]) == [Nan, Inc(3)];
  }

  /** The fused `+++.` prints byte 3. */
  lemma IncrementThenPrint()
    ensures Run([Nan, Inc(3), Out], map[], Init([]), 3) == Halted(State([3], 0, 3, [], [3]))
  {
    var ts := [Nan, Inc(3), Out];
    var s1 := State([0], 0, 1, [], []);
    var s2 := State([3], 0, 2, [], []);
    assert WrappingAdd(0, 3) == 3;
    assert s1.tape[0 := 3] == [3];
    assert Step(ts, map[], s1) == Ok(s2);
    assert s2.out + [s2.tape[0]] == [3];
    RunThree(ts, Init([]), s1, s2, State([3], 0, 3, [], [3]));
  }

  /** `-.`: a decrement wraps the zero cell round to 255. */
  lemma DecrementWraps()
    ensures Fused(Lex("-.")) == [Nan, Dec(1), Out]
    ensures Run([Nan, Dec(1), Out], map[], Init([]), 3) == Halted(State([255], 0, 3, [], [255]))
  {
    TwoCommands('-', '.');
    var ts := [Nan, Dec(1), Out];
    var s1 := State([0], 0, 1, [], []);
    var s2 := State([255], 0, 2, [], []);
    assert WrappingSub(0, 1) == 255;
    assert s1.tape[0 := 255] == [255];
    assert Step(ts, map[], s1) == Ok(s2);
    assert s2.out + [s2.tape[0]] == [255];
    RunThree(ts, Init([]), s1, s2, State([255], 0, 3, [], [255]));
  }

  /** `<.`: the head on the first cell panics on `<`, at index 1 because of the sentinel. */
  lemma LeftOfStartPanics()
    ensures Fused(Lex("<.")) == [Nan, Lef(1), Out]
    ensures Run([Nan, Lef(1), Out], map[], Init([]), 3) == Stuck(PointerUnderflow(1), State([0], 0, 1, [], []))
  {
    TwoCommands('<', '.');
    RunUnfold([Nan, Lef(1), Out], map[], Init([]), 3);
  }

  /** `,.` reading the line `AB`: the first byte of the line is read and echoed. */
  lemma ReadEchoesFirstByte()
    ensures Fused(Lex(",.")) == [Nan, Acc, Out]
    ensures Run([Nan, Acc, Out], map[], Init(Reversed([65, 66])), 3) == Halted(State([65], 0, 3, [66], [65]))
  {
    TwoCommands(',', '.');
    assert Reversed([65, 66]) == [66, 65];
    ReadThenEcho();
  }

  /** The run of `,.` on the input queue `[66, 65]`, whose back is the line's first byte. */
  lemma ReadThenEcho()
    ensures Run([Nan, Acc, Out], map[], Init([66, 65]), 3) == Halted(State([65], 0, 3, [66], [65]))
  {
    var ts := [Nan, Acc, Out];
    var s1 := State([0], 0, 1, [66, 65], []);
    var s2 := State([65], 0, 2, [66], []);
    assert s1.tape[0 := 65] == [65] && s1.input[..1] == [66];
    assert Step(ts, map[], s1) == Ok(s2);
    assert s2.out + [s2.tape[0]] == [65];
    RunThree(ts, Init([66, 65]), s1, s2, State([65], 0, 3, [66], [65]));
  }

  /** `]`: the stray bracket is reported at index 1, the sentinel having taken index 0. */
  lemma StrayCloseAtOne()
    ensures Fused(Lex("]")) == [Nan, Bac]
    ensures !Balanced([Nan, Bac])
    ensures forall j :: FirstUnderflow([Nan, Bac], j) <==> j == 1
  {
    assert Lex("]") == [Bac];
    assert Level([Nan, Bac], 2) == -1;
    assert NeverNegative([Nan, Bac], 1) by {
      assert forall j :: 0 <= j <= 1 ==> Level([Nan, Bac], j) == 0;
    }
  }

  /** `[`: the unclosed bracket is reported as `[1]`. */
  lemma UnclosedAtOne()
    ensures Fused(Lex("[")) == [Nan, Jum]
    ensures !Balanced([Nan, Jum])
    ensures forall i :: Unpaired([Nan, Jum], i) <==> i == 1
  {
    assert Lex("[") == [Jum];
    assert Level([Nan, Jum], 2) == 1;
  }

  // The multiplication loop `++++++++[>++++++++<-]>.`, which prints 8 * 8.

  /** `k` unfused `+` tokens. */
  function Ones(k: nat): (r: seq<Token>)
    ensures |r| == k && forall i :: 0 <= i < k ==> r[i] == Inc(1)
  {
    seq(k, _ => Inc(1))
  }

  /** One more token is absorbed into the fold of the tokens before it. */
  lemma FusedSnoc(s: seq<Token>, t: Token)
    ensures Fused(s + [t]) == Absorb(Fused(s), t)
  {
    assert (s + [t])[..|s|] == s;
  }

  /** One more `+` after a fold ending in `Inc(m)` raises that count to `m + 1`. */
  lemma GrowRun(s: seq<Token>, f: seq<Token>, m: nat)
    requires Fused(s) == f + [Inc(m)]
    ensures Fused(s + [Inc(1)]) == f + [Inc(m + 1)]
  {
    FusedSnoc(s, Inc(1));
    var acc := f + [Inc(m)];
    assert acc[|acc| - 1 := Inc(m + 1)] == f + [Inc(m + 1)];
  }

  /** A run of `k` `+` after a fold that does not end in `Inc` becomes one `Inc(k)`. */
  lemma {:induction false} FusedOnes(a: seq<Token>, k: nat)
    requires k >= 1 && !Fused(a)[|Fused(a)| - 1].Inc?
    ensures Fused(a + Ones(k)) == Fused(a) + [Inc(k)]
  {
    if k == 1 {
      assert a + Ones(1) == a + [Inc(1)];
      FusedSnoc(a, Inc(1));
    } else {
      FusedOnes(a, k - 1);
      assert a + Ones(k) == (a + Ones(k - 1)) + [Inc(1)] by {
        assert Ones(k) == Ones(k - 1) + [Inc(1)];
      }
      GrowRun(a + Ones(k - 1), Fused(a), k - 1);
    }
  }

  /** The fused multiplication program. */
  const Multiply: seq<Token> := [Nan, Inc(8), Jum, Rig(1), Inc(8), Lef(1), Dec(1), Bac, Rig(1), Out]

  /** Its jump table: the `JUM` at 2 pairs with the `BAC` at 7. */
  const MultiplyJumps: map<nat, nat> := map[2 := 7, 7 := 2]

  /** `k` plus signs lex to `k` unfused `Inc(1)`. */
  lemma {:induction false} LexPluses(k: nat)
    ensures Lex(seq(k, _ => '+')) == Ones(k)
  {
    if k > 0 {
      LexPluses(k - 1);
      assert seq(k, _ => '+') == ['+'] + seq(k - 1, _ => '+');
      LexAppend(['+'], seq(k - 1, _ => '+'));
      assert Ones(k) == [Inc(1)] + Ones(k - 1);
    }
  }

  /** A leading command character lexes to its token in front of the rest. */
  lemma LexCons(c: char, rest: string)
    requires IsCommand(c)
    ensures Lex([c] + rest) == [FromChar(c)] + Lex(rest)
  {
    assert ([c] + rest)[1..] == rest;
  }

  /** The loop's opening `[>`. */
  lemma LexOpen()
    ensures Lex("[>") == [Jum, Rig(1)]
  {
    LexCons('>', "");
    assert "[>" == ['['] + ">";
    LexCons('[', ">");
  }

  /** The loop's body after the inner run, and the final print. */
  lemma LexClose()
    ensures Lex("<-]>.") == [Lef(1), Dec(1), Bac, Rig(1), Out]
  {
    LexCons('.', "");
    assert ">." == ['>'] + ".";
    LexCons('>', ".");
    assert "]>." == [']'] + ">.";
    LexCons(']', ">.");
    assert "-]>." == ['-'] + "]>.";
    LexCons('-', "]>.");
    assert "<-]>." == ['<'] + "-]>.";
    LexCons('<', "-]>.");
  }

  /** The multiplication source, command by command. */
  lemma MultiplyLexes()
    ensures Lex("++++++++[>++++++++<-]>.") == Ones(8) + [Jum, Rig(1)] + Ones(8) + [Lef(1), Dec(1), Bac, Rig(1), Out]
  {
    var eight := seq(8, _ => '+');
    assert "++++++++[>++++++++<-]>." == eight + "[>" + eight + "<-]>.";
    LexPluses(8);
    LexOpen();
    LexClose();
    LexAppend(eight + "[>" + eight, "<-]>.");
    LexAppend(eight + "[>", eight);
    LexAppend(eight, "[>");
  }

  /** A token that does not merge with the fold's last entry is appended to it. */
  lemma FusedPush(s: seq<Token>, f: seq<Token>, t: Token)
    requires Fused(s) == f && !Merges(f[|f| - 1], t)
    ensures Fused(s + [t]) == f + [t]
  {
    FusedSnoc(s, t);
  }

  /** The two runs of eight `+` around `[>` fold to `Inc(8)` each. */
  lemma MultiplyFusesRuns()
    ensures Fused(Ones(8) + [Jum, Rig(1)] + Ones(8)) == [Nan, Inc(8), Jum, Rig(1), Inc(8)]
  {
    FusedOnes([], 8);
    assert [] + Ones(8) == Ones(8);
    var a := Ones(8) + [Jum];
    FusedPush(Ones(8), [Nan, Inc(8)], Jum);
    FusedPush(a, [Nan, Inc(8), Jum], Rig(1));
    var b := a + [Rig(1)];
    assert b == Ones(8) + [Jum, Rig(1)];
    FusedOnes(b, 8);
  }

  /** Folding the lexed multiplication source gives `Multiply`. */
  lemma MultiplyFuses()
    ensures Fused(Ones(8) + [Jum, Rig(1)] + Ones(8) + [Lef(1), Dec(1), Bac, Rig(1), Out]) == Multiply
  {
    var c := Ones(8) + [Jum, Rig(1)] + Ones(8);
    var c1, c2 := c + [Lef(1)], c + [Lef(1), Dec(1)];
    MultiplyFusesRuns();
    FusedPush(c, [Nan, Inc(8), Jum, Rig(1), Inc(8)], Lef(1));
    assert c1 + [Dec(1)] == c2;
    FusedPush(c1, [Nan, Inc(8), Jum, Rig(1), Inc(8), Lef(1)], Dec(1));
    MultiplyFusesTail(c2);
    assert c2 + [Bac, Rig(1), Out] == c + [Lef(1), Dec(1), Bac, Rig(1), Out];
  }

  /** The `]`, `>` and `.` at the end are each pushed: none merges with what precedes it. */
  lemma MultiplyFusesTail(c2: seq<Token>)
    requires Fused(c2) == [Nan, Inc(8), Jum, Rig(1), Inc(8), Lef(1), Dec(1)]
    ensures Fused(c2 + [Bac, Rig(1), Out]) == Multiply
  {
    var c3, c4 := c2 + [Bac], c2 + [Bac, Rig(1)];
    FusedPush(c2, [Nan, Inc(8), Jum, Rig(1), Inc(8), Lef(1), Dec(1)], Bac);
    assert c3 + [Rig(1)] == c4;
    FusedPush(c3, [Nan, Inc(8), Jum, Rig(1), Inc(8), Lef(1), Dec(1), Bac], Rig(1));
    assert c4 + [Out] == c2 + [Bac, Rig(1), Out];
    FusedPush(c4, [Nan, Inc(8), Jum, Rig(1), Inc(8), Lef(1), Dec(1), Bac, Rig(1)], Out);
  }

  /** The source compiles to `Multiply`, whose jump table is `MultiplyJumps`, and it reads no input. */
  lemma MultiplyCompiles()
    ensures Fused(Lex("++++++++[>++++++++<-]>.")) == Multiply
    ensures IsJumpTable(Multiply, MultiplyJumps)
    ensures !Contains(Multiply, Acc)
  {
    MultiplyLexes();
    MultiplyFuses();
    MultiplyTable();
    MultiplyReadsNothing();
  }

  /** No `,` in the multiplication program. */
  lemma MultiplyReadsNothing()
    ensures !Contains(Multiply, Acc)
  {
    assert forall i :: 0 <= i < |Multiply| ==> !Same(Multiply[i], Acc);
  }

  /** Depth along `Multiply`: 1 between the brackets, 0 elsewhere. */
  lemma MultiplyLevels()
    ensures forall k :: 0 <= k <= |Multiply| ==> Level(Multiply, k) == if 3 <= k <= 7 then 1 else 0
  {
    var p := Multiply;
    assert Level(p, 0) == 0;
    assert Level(p, 1) == 0;
    assert Level(p, 2) == 0;
    assert Level(p, 3) == 1;
    assert Level(p, 4) == 1;
    assert Level(p, 5) == 1;
    assert Level(p, 6) == 1;
    assert Level(p, 7) == 1;
    assert Level(p, 8) == 0;
    assert Level(p, 9) == 0;
    assert Level(p, 10) == 0;
  }

  /** The `JUM` at 2 is closed by the `BAC` at 7. */
  lemma MultiplyPair()
    ensures Closes(Multiply, 2, 7)
  {
    MultiplyLevels();
  }

  /** `MultiplyJumps` has a key at each bracket of `Multiply` and no other, and is symmetric. */
  lemma MultiplyKeys()
    ensures forall i :: i in MultiplyJumps ==> i < |Multiply| && (Multiply[i] == Jum || Multiply[i] == Bac)
    ensures forall i :: 0 <= i < |Multiply| && (Multiply[i] == Jum || Multiply[i] == Bac) ==> i in MultiplyJumps
    ensures forall i :: i in MultiplyJumps ==> MultiplyJumps[i] < |Multiply| && MultiplyJumps[i] in MultiplyJumps && MultiplyJumps[MultiplyJumps[i]] == i
    ensures forall i :: i in MultiplyJumps ==> (i < MultiplyJumps[i] <==> Multiply[i] == Jum) && (MultiplyJumps[i] < i <==> Multiply[i] == Bac)
  {
    assert MultiplyJumps.Keys == {2, 7};
  }

  /** `MultiplyJumps` pairs the brackets of `Multiply`. */
  lemma MultiplyTable()
    ensures IsJumpTable(Multiply, MultiplyJumps)
  {
    MultiplyKeys();
    MultiplyPair();
    assert MultiplyJumps.Keys == {2, 7};
  }

  /** The state at the loop body's `+`, with counter `c` still in cell 0 and `8 * (8 - c)` in cell 1. */
  function LoopAt(c: nat): (s: State)
    requires 1 <= c <= 8
    ensures s.Valid()
  {
    State([c as Byte, (8 * (8 - c)) as Byte], 1, 4, [], [])
  }

  /** One successful step of `Multiply` costs one unit of fuel. */
  lemma Advance(s: State, s': State, fuel: nat)
    requires s.Valid() && s.idx < |Multiply| && fuel > 0 && Step(Multiply, MultiplyJumps, s) == Ok(s')
    ensures Run(Multiply, MultiplyJumps, s, fuel) == Run(Multiply, MultiplyJumps, s', fuel - 1)
  {
    RunUnfold(Multiply, MultiplyJumps, s, fuel);
  }

  /** The body's `+` and `<`: cell 1 gains 8 and the head returns to the counter. */
  lemma LoopAdd(c: nat, fuel: nat)
    requires 1 <= c <= 8 && fuel >= 2
    ensures Run(Multiply, MultiplyJumps, LoopAt(c), fuel)
         == Run(Multiply, MultiplyJumps, State([c as Byte, (8 * (9 - c)) as Byte], 0, 6, [], []), fuel - 2)
  {
    var x := 8 * (8 - c);
    var s0 := LoopAt(c);
    var s1 := State([c as Byte, (x + 8) as Byte], 1, 5, [], []);
    assert WrappingAdd(x as Byte, 8) == (x + 8) as Byte;
    assert s0.tape[1 := (x + 8) as Byte] == s1.tape;
    Advance(s0, s1, fuel);
    Advance(s1, s1.(pointer := 0, idx := 6), fuel - 1);
  }

  /** The body's `-`, the `]` that jumps back while the counter is not zero, and the `>` after the `[`. */
  lemma LoopBack(c: nat, fuel: nat)
    requires 2 <= c <= 8 && fuel >= 3
    ensures Run(Multiply, MultiplyJumps, State([c as Byte, (8 * (9 - c)) as Byte], 0, 6, [], []), fuel)
         == Run(Multiply, MultiplyJumps, LoopAt(c - 1), fuel - 3)
  {
    var y := (8 * (9 - c)) as Byte;
    var s2 := State([c as Byte, y], 0, 6, [], []);
    var s3 := State([(c - 1) as Byte, y], 0, 7, [], []);
    assert WrappingSub(c as Byte, 1) == (c - 1) as Byte;
    assert s2.tape[0 := (c - 1) as Byte] == s3.tape;
    Advance(s2, s3, fuel);
    Advance(s3, s3.(idx := 3), fuel - 1);
    Advance(s3.(idx := 3), LoopAt(c - 1), fuel - 2);
  }

  /** One pass of the loop body with the counter above 1 comes back to the body's `+` with the counter one lower. */
  lemma LoopPass(c: nat, fuel: nat)
    requires 2 <= c <= 8 && fuel >= 5
    ensures Run(Multiply, MultiplyJumps, LoopAt(c), fuel) == Run(Multiply, MultiplyJumps, LoopAt(c - 1), fuel - 5)
  {
    LoopAdd(c, fuel);
    LoopBack(c, fuel - 2);
  }

  /** With the counter at zero the `]` falls through; `>` and `.` then print cell 1. */
  lemma LoopFallThrough(fuel: nat)
    requires fuel >= 2
    ensures Run(Multiply, MultiplyJumps, State([0, 64], 0, 8, [], []), fuel) == Halted(State([0, 64], 1, 10, [], [64]))
  {
    var s5 := State([0, 64], 1, 9, [], []);
    Advance(State([0, 64], 0, 8, [], []), s5, fuel);
    assert s5.out + [s5.tape[1]] == [64];
    Advance(s5, State([0, 64], 1, 10, [], [64]), fuel - 1);
  }

  /** The last pass: the counter reaches 0, the loop falls through, and the program prints 64. */
  lemma LoopExit(fuel: nat)
    requires fuel >= 6
    ensures Run(Multiply, MultiplyJumps, LoopAt(1), fuel) == Halted(State([0, 64], 1, 10, [], [64]))
  {
    var s2 := State([1, 64], 0, 6, [], []);
    var s3 := State([0, 64], 0, 7, [], []);
    LoopAdd(1, fuel);
    assert s2.tape[0 := 0] == s3.tape;
    Advance(s2, s3, fuel - 2);
    Advance(s3, s3.(idx := 8), fuel - 3);
    LoopFallThrough(fuel - 4);
  }

  /** From the body's `+` with counter `c`, the loop runs to the end within `5 * c + 1` steps. */
  lemma {:induction false} LoopRuns(c: nat, fuel: nat)
    requires 1 <= c <= 8 && fuel >= 5 * c + 1
    ensures Run(Multiply, MultiplyJumps, LoopAt(c), fuel) == Halted(State([0, 64], 1, 10, [], [64]))
    decreases c
  {
    if c == 1 {
      LoopExit(fuel);
    } else {
      LoopPass(c, fuel);
      LoopRuns(c - 1, fuel - 5);
    }
  }

  /** `++++++++[>`: the counter is set to 8, the `[` falls through, and the head moves onto a new cell. */
  lemma MultiplyEnters(fuel: nat)
    requires fuel >= 4
    ensures Run(Multiply, MultiplyJumps, Init([]), fuel) == Run(Multiply, MultiplyJumps, LoopAt(8), fuel - 4)
  {
    var s1 := State([0], 0, 1, [], []);
    var s2 := State([8], 0, 2, [], []);
    Advance(Init([]), s1, fuel);
    assert s1.tape[0 := 8] == s2.tape;
    Advance(s1, s2, fuel - 1);
    MultiplyWidens(fuel - 2);
  }

  /** The `[` with a nonzero counter, then the first `>`, which grows the tape by one zero cell. */
  lemma MultiplyWidens(fuel: nat)
    requires fuel >= 2
    ensures Run(Multiply, MultiplyJumps, State([8], 0, 2, [], []), fuel) == Run(Multiply, MultiplyJumps, LoopAt(8), fuel - 2)
  {
    var s3 := State([8], 0, 3, [], []);
    Advance(State([8], 0, 2, [], []), s3, fuel);
    assert s3.tape + Zeros(1) == LoopAt(8).tape;
    Advance(s3, LoopAt(8), fuel - 1);
  }

  /**
   * `++++++++[>++++++++<-]>.` takes the jump back seven times and prints the
   * single byte 64, leaving the tape `[0, 64]` with the head on cell 1.
   */
  lemma MultiplyPrints64()
    ensures Run(Multiply, MultiplyJumps, Init([]), 45) == Halted(State([0, 64], 1, 10, [], [64]))
  {
    MultiplyEnters(45);
    LoopRuns(8, 41);
  }


}
