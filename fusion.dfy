/**
 * Run-length fusion: the `fold` seeded with a `Nan` sentinel that sums the counts
 * of adjacent `Inc`, `Dec`, `Lef` and `Rig` tokens (src/main.rs:51-61).
 */
module Fusion {
  import opened Tokens

  /** The pairs the fold merges: two counted tokens of the same kind. */
  predicate Merges(last: Token, next: Token) {
    (last.Inc? && next.Inc?) || (last.Dec? && next.Dec?) || (last.Lef? && next.Lef?) || (last.Rig? && next.Rig?)
  }

  /** One step of the fold: overwrite the last entry with the summed count, or push `next`. */
  function Absorb(acc: seq<Token>, next: Token): (r: seq<Token>)
    requires acc != []
    ensures Merges(acc[|acc| - 1], next) ==> r == acc[|acc| - 1 := acc[|acc| - 1].(n := acc[|acc| - 1].n + next.n)]
    ensures !Merges(acc[|acc| - 1], next) ==> r == acc + [next]
  {
    var last := |acc| - 1;
    match (acc[last], next)
    case (Inc(a), Inc(b)) => acc[last := Inc(a + b)]
    case (Lef(a), Lef(b)) => acc[last := Lef(a + b)]
    case (Rig(a), Rig(b)) => acc[last := Rig(a + b)]
    case (Dec(a), Dec(b)) => acc[last := Dec(a + b)]
    case (_, _) => acc + [next]
  }

  /** The fold over `tokens` from the seed `[Nan]`, written on prefixes. */
  function Fused(tokens: seq<Token>): (r: seq<Token>)
    ensures r != [] && r[0] == Nan
    ensures |r| <= |tokens| + 1
  {
    if tokens == [] then [Nan]
    else Absorb(Fused(tokens[..|tokens| - 1]), tokens[|tokens| - 1])
  }

  /** The fold as the program runs it: `acc` grows by push or has its last entry overwritten. */
  method Fuse(tokens: seq<Token>) returns (acc: seq<Token>)
    ensures acc == Fused(tokens)
  {
    acc := [Nan];
    for i := 0 to |tokens|
      invariant acc == Fused(tokens[..i])
    {
      assert tokens[..i + 1][..i] == tokens[..i];
      var last := |acc| - 1;
      match (acc[last], tokens[i]) {
        case (Inc(a), Inc(b)) => acc := acc[last := Inc(a + b)];
        case (Lef(a), Lef(b)) => acc := acc[last := Lef(a + b)];
        case (Rig(a), Rig(b)) => acc := acc[last := Rig(a + b)];
        case (Dec(a), Dec(b)) => acc := acc[last := Dec(a + b)];
        case (_, _) => acc := acc + [tokens[i]];
      }
    }
    assert tokens[..|tokens|] == tokens;
  }

  /** No two adjacent entries are mergeable. */
  predicate NoRuns(s: seq<Token>) {
    forall i :: 0 < i < |s| ==> !Merges(s[i - 1], s[i])
  }

  lemma {:induction false} FusedHasNoRuns(tokens: seq<Token>)
    ensures NoRuns(Fused(tokens))
  {
    if tokens != [] {
      var prefix := tokens[..|tokens| - 1];
      FusedHasNoRuns(prefix);
    }
  }

  /** The tokens that never fuse: loop brackets, input and output. */
  predicate IsControl(t: Token) { t.Jum? || t.Bac? || t.Acc? || t.Out? }

  /** The control tokens of `s`, in order. */
  function Controls(s: seq<Token>): seq<Token> {
    if s == [] then []
    else Controls(s[..|s| - 1]) + (if IsControl(s[|s| - 1]) then [s[|s| - 1]] else [])
  }

  lemma ControlsPush(s: seq<Token>, t: Token)
    ensures Controls(s + [t]) == Controls(s) + (if IsControl(t) then [t] else [])
  {
    assert (s + [t])[..|s|] == s;
  }

  lemma ControlsOverwriteLast(s: seq<Token>, t: Token)
    requires s != [] && !IsControl(s[|s| - 1]) && !IsControl(t)
    ensures Controls(s[|s| - 1 := t]) == Controls(s)
  {
    var u := s[|s| - 1 := t];
    assert u[..|u| - 1] == s[..|s| - 1];
  }

  /** Loop brackets, input and output survive fusion in the same order and number. */
  lemma {:induction false} FusedKeepsControls(tokens: seq<Token>)
    ensures Controls(Fused(tokens)) == Controls(tokens)
  {
    if tokens == [] {
      assert Controls([Nan]) == Controls([]) + [];
    } else {
      var prefix, t := tokens[..|tokens| - 1], tokens[|tokens| - 1];
      var acc := Fused(prefix);
      FusedKeepsControls(prefix);
      if Merges(acc[|acc| - 1], t) {
        var merged := Absorb(acc, t);
        assert merged == acc[|acc| - 1 := merged[|acc| - 1]];
        ControlsOverwriteLast(acc, merged[|acc| - 1]);
      } else {
        assert Absorb(acc, t) == acc + [t];
        ControlsPush(acc, t);
      }
    }
  }

  /** The count a token contributes to the total of `kind`'s kind. */
  function Weight(t: Token, kind: Token): nat {
    if t.Counted() && Same(t, kind) then t.n else 0
  }

  /** The summed counts of the tokens of `kind`'s kind. */
  function Total(s: seq<Token>, kind: Token): nat {
    if s == [] then 0 else Total(s[..|s| - 1], kind) + Weight(s[|s| - 1], kind)
  }

  lemma TotalPush(s: seq<Token>, t: Token, kind: Token)
    ensures Total(s + [t], kind) == Total(s, kind) + Weight(t, kind)
  {
    assert (s + [t])[..|s|] == s;
  }

  lemma TotalOverwriteLast(s: seq<Token>, t: Token, kind: Token)
    requires s != []
    ensures Total(s[|s| - 1 := t], kind) == Total(s, kind) - Weight(s[|s| - 1], kind) + Weight(t, kind)
  {
    var u := s[|s| - 1 := t];
    assert u[..|u| - 1] == s[..|s| - 1];
  }

  lemma MergedWeight(last: Token, next: Token, kind: Token)
    requires Merges(last, next)
    ensures Weight(last.(n := last.n + next.n), kind) == Weight(last, kind) + Weight(next, kind)
  {
  }

  /** Absorbing one token adds its count to the total, whether it merges or is pushed. */
  lemma TotalAbsorb(acc: seq<Token>, t: Token, kind: Token)
    requires acc != []
    ensures Total(Absorb(acc, t), kind) == Total(acc, kind) + Weight(t, kind)
  {
    var last := acc[|acc| - 1];
    if Merges(last, t) {
      TotalOverwriteLast(acc, last.(n := last.n + t.n), kind);
      MergedWeight(last, t, kind);
    } else {
      TotalPush(acc, t, kind);
    }
  }

  /** Fusion preserves, for every kind, the summed count of `Inc`, `Dec`, `Lef` and `Rig` tokens. */
  lemma {:induction false} FusedKeepsTotals(tokens: seq<Token>, kind: Token)
    ensures Total(Fused(tokens), kind) == Total(tokens, kind)
  {
    if tokens == [] {
      assert Total([Nan], kind) == Total([], kind) + Weight(Nan, kind);
    } else {
      var prefix, t := tokens[..|tokens| - 1], tokens[|tokens| - 1];
      FusedKeepsTotals(prefix, kind);
      TotalAbsorb(Fused(prefix), t, kind);
    }
  }

  /** A stream with nothing left to merge comes out of the fold unchanged, behind the sentinel. */
  lemma {:induction false} FusedOfRunFree(s: seq<Token>)
    requires NoRuns(s)
    ensures Fused(s) == [Nan] + s
  {
    if s != [] {
      var prefix := s[..|s| - 1];
      assert NoRuns(prefix) by {
        forall i | 0 < i < |prefix| ensures !Merges(prefix[i - 1], prefix[i]) {
          assert prefix[i - 1] == s[i - 1] && prefix[i] == s[i];
        }
      }
      FusedOfRunFree(prefix);
      var acc := [Nan] + prefix;
      assert !Merges(acc[|acc| - 1], s[|s| - 1]) by {
        if |s| > 1 { assert acc[|acc| - 1] == s[|s| - 2]; }
      }
      assert Absorb(acc, s[|s| - 1]) == acc + [s[|s| - 1]];
      assert acc + [s[|s| - 1]] == [Nan] + s;
    }
  }

  /** Fusion is idempotent: fusing the fused stream again (behind its sentinel) changes nothing. */
  lemma FuseIdempotent(tokens: seq<Token>)
    ensures Fused(Fused(tokens)[1..]) == Fused(tokens)
  {
    var f := Fused(tokens);
    FusedHasNoRuns(tokens);
    assert NoRuns(f[1..]) by {
      forall i | 0 < i < |f[1..]| ensures !Merges(f[1..][i - 1], f[1..][i]) {
        assert f[1..][i - 1] == f[i] && f[1..][i] == f[i + 1];
      }
    }
    FusedOfRunFree(f[1..]);
    assert [Nan] + f[1..] == f;
  }
}
