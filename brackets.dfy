/**
 * The bracket resolver: one pass over the fused stream with a stack of pending
 * `Jum` indices, filling a symmetric jump table (src/main.rs:62-75).
 */
module Brackets {
  import opened Tokens
  import opened Wrappers

  /** Why resolution fails: a `Bac` with nothing open (the `expect` at line 68), or `Jum`s left open (the `panic!` at line 75). */
  datatype ResolveError = UnexpectedAt(idx: nat) | Unclosed(open: seq<nat>)

  /** How a token changes the bracket depth. */
  function Delta(t: Token): int {
    if t == Jum then 1 else if t == Bac then -1 else 0
  }

  /** Bracket depth after the first `k` tokens: brackets opened minus brackets closed. */
  function Level(tokens: seq<Token>, k: nat): int
    requires k <= |tokens|
  {
    if k == 0 then 0 else Level(tokens, k - 1) + Delta(tokens[k - 1])
  }

  /** No prefix of the first `k` tokens closes more brackets than it opened. */
  ghost predicate NeverNegative(tokens: seq<Token>, k: nat)
    requires k <= |tokens|
  {
    forall j :: 0 <= j <= k ==> Level(tokens, j) >= 0
  }

  /** Every bracket is closed and no prefix goes below depth zero. */
  ghost predicate Balanced(tokens: seq<Token>) {
    NeverNegative(tokens, |tokens|) && Level(tokens, |tokens|) == 0
  }

  /** `j` is the first point after the `Jum` at `i` where the depth falls back to what it was before `i`. */
  ghost predicate Closes(tokens: seq<Token>, i: nat, j: nat)
    requires i < j < |tokens|
  {
    tokens[i] == Jum && tokens[j] == Bac && Level(tokens, j + 1) == Level(tokens, i)
    && forall k :: i < k <= j ==> Level(tokens, k) > Level(tokens, i)
  }

  /** A `Jum` that no later `Bac` closes. */
  ghost predicate Unpaired(tokens: seq<Token>, i: nat) {
    i < |tokens| && tokens[i] == Jum
    && forall j :: i < j <= |tokens| ==> Level(tokens, j) > Level(tokens, i)
  }

  /** `j` is the `Bac` at which depth first goes below zero. */
  ghost predicate FirstUnderflow(tokens: seq<Token>, j: nat) {
    j < |tokens| && tokens[j] == Bac && NeverNegative(tokens, j) && Level(tokens, j) == 0
  }

  /** Strictly increasing indices: the order in which they were pushed. */
  ghost predicate Increasing(s: seq<nat>) {
    forall a, b :: 0 <= a < b < |s| ==> s[a] < s[b]
  }

  /** Loop pairs never cross: whatever lies strictly inside a pair has its partner inside too. */
  ghost predicate Nested(jumps: map<nat, nat>) {
    forall i, j :: i in jumps && j in jumps && i < j < jumps[i] ==> i < jumps[j] < jumps[i]
  }

  /** A jump table for `tokens`: keys exactly at the brackets, symmetric, each `Jum` mapped to the `Bac` that closes it. */
  ghost predicate IsJumpTable(tokens: seq<Token>, jumps: map<nat, nat>) {
    (forall i :: i in jumps ==> i < |tokens| && (tokens[i] == Jum || tokens[i] == Bac))
    && (forall i :: 0 <= i < |tokens| && (tokens[i] == Jum || tokens[i] == Bac) ==> i in jumps)
    && (forall i :: i in jumps ==> jumps[i] < |tokens| && jumps[i] in jumps && jumps[jumps[i]] == i)
    && (forall i :: i in jumps ==> (i < jumps[i] <==> tokens[i] == Jum) && (jumps[i] < i <==> tokens[i] == Bac))
    && (forall i :: i in jumps && i < jumps[i] ==> Closes(tokens, i, jumps[i]))
    && Nested(jumps)
  }

  // The resolver's loop invariant, in four parts, after the first `idx` tokens.

  /** The pending stack holds, bottom to top, the `Jum`s still open; the one at position `k` opened depth `k`. */
  ghost predicate QueueInv(tokens: seq<Token>, idx: nat, queue: seq<nat>, jumps: map<nat, nat>)
    requires idx <= |tokens|
  {
    NeverNegative(tokens, idx) && |queue| == Level(tokens, idx)
    && (forall k :: 0 <= k < |queue| ==>
          queue[k] < idx && tokens[queue[k]] == Jum && Level(tokens, queue[k]) == k && queue[k] !in jumps)
    && (forall k, j :: 0 <= k < |queue| && queue[k] < j <= idx ==> Level(tokens, j) > k)
    && Increasing(queue)
  }

  /** The table built so far pairs brackets before `idx` symmetrically, `Jum` before `Bac`. */
  ghost predicate PairsInv(tokens: seq<Token>, idx: nat, jumps: map<nat, nat>)
    requires idx <= |tokens|
  {
    (forall i :: i in jumps ==>
       i < idx && (tokens[i] == Jum || tokens[i] == Bac)
       && jumps[i] < idx && jumps[i] in jumps && jumps[jumps[i]] == i)
    && (forall i :: i in jumps ==> (i < jumps[i] <==> tokens[i] == Jum) && (jumps[i] < i <==> tokens[i] == Bac))
  }

  /** Each pair in the table is a `Jum` and the `Bac` that closes it. */
  ghost predicate ClosesInv(tokens: seq<Token>, jumps: map<nat, nat>) {
    forall i :: i in jumps && i < jumps[i] && jumps[i] < |tokens| ==> Closes(tokens, i, jumps[i])
  }

  ghost predicate TableInv(tokens: seq<Token>, idx: nat, jumps: map<nat, nat>)
    requires idx <= |tokens|
  {
    PairsInv(tokens, idx, jumps) && ClosesInv(tokens, jumps) && Nested(jumps)
  }

  /** Every bracket before `idx` is either paired or pending. */
  ghost predicate CoveredInv(tokens: seq<Token>, idx: nat, queue: seq<nat>, jumps: map<nat, nat>)
    requires idx <= |tokens|
  {
    forall i :: 0 <= i < idx && (tokens[i] == Jum || tokens[i] == Bac) ==> i in jumps || i in queue
  }

  /** No pending `Jum` lies inside a pair already closed. */
  ghost predicate OutsideInv(queue: seq<nat>, jumps: map<nat, nat>) {
    forall i, k :: i in jumps && 0 <= k < |queue| ==> !(i < queue[k] < jumps[i])
  }

  ghost predicate ResolveInv(tokens: seq<Token>, idx: nat, queue: seq<nat>, jumps: map<nat, nat>)
    requires idx <= |tokens|
  {
    QueueInv(tokens, idx, queue, jumps) && TableInv(tokens, idx, jumps)
    && CoveredInv(tokens, idx, queue, jumps) && OutsideInv(queue, jumps)
  }

  lemma StartInv(tokens: seq<Token>)
    ensures ResolveInv(tokens, 0, [], map[])
  {
  }

  lemma LevelStep(tokens: seq<Token>, idx: nat)
    requires idx < |tokens|
    ensures Level(tokens, idx + 1) == Level(tokens, idx) + Delta(tokens[idx])
  {
  }

  lemma NeverNegativeStep(tokens: seq<Token>, idx: nat)
    requires idx < |tokens| && NeverNegative(tokens, idx) && Level(tokens, idx + 1) >= 0
    ensures NeverNegative(tokens, idx + 1)
  {
    forall j | 0 <= j <= idx + 1 ensures Level(tokens, j) >= 0 {
      if j <= idx { assert NeverNegative(tokens, idx); }
    }
  }

  lemma PairsWiden(tokens: seq<Token>, idx: nat, jumps: map<nat, nat>)
    requires idx < |tokens| && PairsInv(tokens, idx, jumps)
    ensures PairsInv(tokens, idx + 1, jumps)
  {
  }

  /** A token that is not a bracket keeps the invariant. */
  lemma SkipKeepsInv(tokens: seq<Token>, idx: nat, queue: seq<nat>, jumps: map<nat, nat>)
    requires idx < |tokens| && tokens[idx] != Jum && tokens[idx] != Bac
    requires ResolveInv(tokens, idx, queue, jumps)
    ensures ResolveInv(tokens, idx + 1, queue, jumps)
  {
    SkipKeepsQueue(tokens, idx, queue, jumps);
    PairsWiden(tokens, idx, jumps);
  }

  lemma SkipKeepsQueue(tokens: seq<Token>, idx: nat, queue: seq<nat>, jumps: map<nat, nat>)
    requires idx < |tokens| && tokens[idx] != Jum && tokens[idx] != Bac
    requires QueueInv(tokens, idx, queue, jumps)
    ensures QueueInv(tokens, idx + 1, queue, jumps)
  {
    LevelStep(tokens, idx);
    NeverNegativeStep(tokens, idx);
  }

  /** Pushing a `Jum` keeps the invariant. */
  lemma PushKeepsInv(tokens: seq<Token>, idx: nat, queue: seq<nat>, jumps: map<nat, nat>)
    requires idx < |tokens| && tokens[idx] == Jum
    requires ResolveInv(tokens, idx, queue, jumps)
    ensures ResolveInv(tokens, idx + 1, queue + [idx], jumps)
  {
    PushKeepsQueue(tokens, idx, queue, jumps);
    PairsWiden(tokens, idx, jumps);
    PushKeepsCovered(tokens, idx, queue, jumps);
    PushKeepsOutside(tokens, idx, queue, jumps);
  }

  lemma PushKeepsQueue(tokens: seq<Token>, idx: nat, queue: seq<nat>, jumps: map<nat, nat>)
    requires idx < |tokens| && tokens[idx] == Jum
    requires QueueInv(tokens, idx, queue, jumps) && PairsInv(tokens, idx, jumps)
    ensures QueueInv(tokens, idx + 1, queue + [idx], jumps)
  {
    LevelStep(tokens, idx);
    NeverNegativeStep(tokens, idx);
    var q := queue + [idx];
    assert forall k :: 0 <= k < |queue| ==> q[k] == queue[k];
    assert idx !in jumps;
  }

  lemma PushKeepsCovered(tokens: seq<Token>, idx: nat, queue: seq<nat>, jumps: map<nat, nat>)
    requires idx < |tokens| && CoveredInv(tokens, idx, queue, jumps)
    ensures CoveredInv(tokens, idx + 1, queue + [idx], jumps)
  {
    var q := queue + [idx];
    forall i | 0 <= i < idx + 1 && (tokens[i] == Jum || tokens[i] == Bac) ensures i in jumps || i in q {
      if i < idx && i in queue {
        var k :| 0 <= k < |queue| && queue[k] == i;
        assert q[k] == i;
      }
      assert q[|queue|] == idx;
    }
  }

  lemma PushKeepsOutside(tokens: seq<Token>, idx: nat, queue: seq<nat>, jumps: map<nat, nat>)
    requires idx < |tokens| && PairsInv(tokens, idx, jumps) && OutsideInv(queue, jumps)
    ensures OutsideInv(queue + [idx], jumps)
  {
    var q := queue + [idx];
    forall i, k | i in jumps && 0 <= k < |q| ensures !(i < q[k] < jumps[i]) {
      if k < |queue| { assert q[k] == queue[k]; }
    }
  }

  /** Pairing a `Bac` with the top of a non-empty stack keeps the invariant. */
  lemma PopKeepsInv(tokens: seq<Token>, idx: nat, queue: seq<nat>, jumps: map<nat, nat>)
    requires idx < |tokens| && tokens[idx] == Bac && queue != []
    requires ResolveInv(tokens, idx, queue, jumps)
    ensures ResolveInv(tokens, idx + 1, queue[..|queue| - 1], jumps[queue[|queue| - 1] := idx][idx := queue[|queue| - 1]])
  {
    PopKeepsQueue(tokens, idx, queue, jumps);
    PopKeepsPairs(tokens, idx, queue, jumps);
    PopCloses(tokens, idx, queue, jumps);
    PopKeepsNested(tokens, idx, queue, jumps);
    PopKeepsCovered(tokens, idx, queue, jumps);
    PopKeepsOutside(tokens, idx, queue, jumps);
  }

  lemma PopKeepsQueue(tokens: seq<Token>, idx: nat, queue: seq<nat>, jumps: map<nat, nat>)
    requires idx < |tokens| && tokens[idx] == Bac && queue != []
    requires QueueInv(tokens, idx, queue, jumps)
    ensures QueueInv(tokens, idx + 1, queue[..|queue| - 1], jumps[queue[|queue| - 1] := idx][idx := queue[|queue| - 1]])
  {
    var temp := queue[|queue| - 1];
    var q := queue[..|queue| - 1];
    LevelStep(tokens, idx);
    NeverNegativeStep(tokens, idx);
    assert forall k :: 0 <= k < |q| ==> q[k] == queue[k] && q[k] < temp;
  }

  /** The new pair joins the table symmetrically, `Jum` before `Bac`. */
  lemma PopKeepsPairs(tokens: seq<Token>, idx: nat, queue: seq<nat>, jumps: map<nat, nat>)
    requires idx < |tokens| && tokens[idx] == Bac && queue != []
    requires QueueInv(tokens, idx, queue, jumps) && PairsInv(tokens, idx, jumps)
    ensures PairsInv(tokens, idx + 1, jumps[queue[|queue| - 1] := idx][idx := queue[|queue| - 1]])
  {
    var temp := queue[|queue| - 1];
    assert temp < idx && temp !in jumps && idx !in jumps && tokens[temp] == Jum;
  }

  /** The popped `Jum` is closed by the current `Bac`. */
  lemma PopCloses(tokens: seq<Token>, idx: nat, queue: seq<nat>, jumps: map<nat, nat>)
    requires idx < |tokens| && tokens[idx] == Bac && queue != []
    requires QueueInv(tokens, idx, queue, jumps) && ClosesInv(tokens, jumps)
    ensures ClosesInv(tokens, jumps[queue[|queue| - 1] := idx][idx := queue[|queue| - 1]])
  {
    var top := |queue| - 1;
    var temp := queue[top];
    LevelStep(tokens, idx);
    assert Level(tokens, temp) == top;
    assert forall k :: temp < k <= idx ==> Level(tokens, k) > top;
    assert Closes(tokens, temp, idx);
  }

  lemma PopKeepsNested(tokens: seq<Token>, idx: nat, queue: seq<nat>, jumps: map<nat, nat>)
    requires idx < |tokens| && queue != []
    requires QueueInv(tokens, idx, queue, jumps) && PairsInv(tokens, idx, jumps)
    requires Nested(jumps) && OutsideInv(queue, jumps)
    ensures Nested(jumps[queue[|queue| - 1] := idx][idx := queue[|queue| - 1]])
  {
    var top := |queue| - 1;
    var temp := queue[top];
    assert forall j :: j in jumps && jumps[j] < j ==> !(jumps[j] < temp < j) by {
      forall j | j in jumps && jumps[j] < j ensures !(jumps[j] < temp < j) {
        var i := jumps[j];
        assert i in jumps && jumps[i] == j;
        assert !(i < queue[top] < jumps[i]);
      }
    }
  }

  lemma PopKeepsCovered(tokens: seq<Token>, idx: nat, queue: seq<nat>, jumps: map<nat, nat>)
    requires idx < |tokens| && tokens[idx] == Bac && queue != []
    requires CoveredInv(tokens, idx, queue, jumps)
    ensures CoveredInv(tokens, idx + 1, queue[..|queue| - 1], jumps[queue[|queue| - 1] := idx][idx := queue[|queue| - 1]])
  {
    var temp := queue[|queue| - 1];
    var q := queue[..|queue| - 1];
    var m := jumps[temp := idx][idx := temp];
    forall i | 0 <= i < idx + 1 && (tokens[i] == Jum || tokens[i] == Bac)
      ensures i in m || i in q
    {
      if i != idx && i != temp && i !in jumps {
        assert i in queue;
        var k :| 0 <= k < |queue| && queue[k] == i;
        assert k < |queue| - 1 && q[k] == i;
      }
    }
  }

  lemma PopKeepsOutside(tokens: seq<Token>, idx: nat, queue: seq<nat>, jumps: map<nat, nat>)
    requires idx < |tokens| && queue != []
    requires QueueInv(tokens, idx, queue, jumps) && OutsideInv(queue, jumps)
    ensures OutsideInv(queue[..|queue| - 1], jumps[queue[|queue| - 1] := idx][idx := queue[|queue| - 1]])
  {
    var temp := queue[|queue| - 1];
    var q := queue[..|queue| - 1];
    var m := jumps[temp := idx][idx := temp];
    forall i, k | i in m && 0 <= k < |q| ensures !(i < q[k] < m[i]) {
      assert q[k] == queue[k] && q[k] < temp;
    }
  }

  /** A `Bac` met with an empty stack is where depth first goes negative. */
  lemma EmptyPopIsUnderflow(tokens: seq<Token>, idx: nat, queue: seq<nat>, jumps: map<nat, nat>)
    requires idx < |tokens| && tokens[idx] == Bac && queue == []
    requires ResolveInv(tokens, idx, queue, jumps)
    ensures FirstUnderflow(tokens, idx) && !Balanced(tokens)
  {
    assert Level(tokens, idx + 1) == -1;
  }

  /** A `Jum` already in the table is closed, so it is not unpaired. */
  lemma PairedNotUnpaired(tokens: seq<Token>, idx: nat, jumps: map<nat, nat>)
    requires idx <= |tokens| && TableInv(tokens, idx, jumps)
    ensures forall i :: i in jumps && tokens[i] == Jum ==> !Unpaired(tokens, i)
  {
    forall i | i in jumps && tokens[i] == Jum ensures !Unpaired(tokens, i) {
      assert i < jumps[i] && Closes(tokens, i, jumps[i]);
      assert Level(tokens, jumps[i] + 1) == Level(tokens, i);
    }
  }

  /** Stack left non-empty at the end: it holds exactly the unpaired `Jum`s. */
  lemma LeftoverIsUnpaired(tokens: seq<Token>, queue: seq<nat>, jumps: map<nat, nat>)
    requires queue != [] && ResolveInv(tokens, |tokens|, queue, jumps)
    ensures !Balanced(tokens)
    ensures forall i :: i in queue <==> Unpaired(tokens, i)
  {
    PairedNotUnpaired(tokens, |tokens|, jumps);
    forall i | i in queue ensures Unpaired(tokens, i) {
      var k :| 0 <= k < |queue| && queue[k] == i;
    }
  }

  /** Stack empty at the end: the table is complete and the stream balanced. */
  lemma EmptyIsTable(tokens: seq<Token>, jumps: map<nat, nat>)
    requires ResolveInv(tokens, |tokens|, [], jumps)
    ensures Balanced(tokens) && IsJumpTable(tokens, jumps)
  {
  }

  /** The resolver's state after the first `k` tokens: the pending stack and the table so far, or the stray `Bac` it stopped at. */
  datatype Scan = Scanning(queue: seq<nat>, jumps: map<nat, nat>) | Stray(at: nat)

  /** The resolver's pass over the first `k` tokens, one token at a time. */
  ghost function ScanTo(tokens: seq<Token>, k: nat): Scan
    requires k <= |tokens|
  {
    if k == 0 then Scanning([], map[])
    else
      match ScanTo(tokens, k - 1)
      case Stray(at) => Stray(at)
      case Scanning(queue, jumps) =>
        var idx := k - 1;
        if tokens[idx] == Jum then Scanning(queue + [idx], jumps)
        else if tokens[idx] == Bac then
          if queue == [] then Stray(idx)
          else
            var temp := queue[|queue| - 1];
            Scanning(queue[..|queue| - 1], jumps[temp := idx][idx := temp])
        else Scanning(queue, jumps)
  }

  /** What the pass has established after `k` tokens: the loop invariant while scanning, the first underflow once stopped. */
  lemma {:induction false} ScanInvariant(tokens: seq<Token>, k: nat)
    requires k <= |tokens|
    ensures ScanTo(tokens, k).Scanning? ==> ResolveInv(tokens, k, ScanTo(tokens, k).queue, ScanTo(tokens, k).jumps)
    ensures ScanTo(tokens, k).Stray? ==> ScanTo(tokens, k).at < k && FirstUnderflow(tokens, ScanTo(tokens, k).at) && !Balanced(tokens)
  {
    if k == 0 {
      StartInv(tokens);
    } else {
      ScanInvariant(tokens, k - 1);
      var before := ScanTo(tokens, k - 1);
      if before.Scanning? {
        ScanStep(tokens, k - 1, before.queue, before.jumps);
      }
    }
  }

  /** One token of the pass keeps the invariant, or stops at the first underflow. */
  lemma ScanStep(tokens: seq<Token>, idx: nat, queue: seq<nat>, jumps: map<nat, nat>)
    requires idx < |tokens| && ScanTo(tokens, idx) == Scanning(queue, jumps)
    requires ResolveInv(tokens, idx, queue, jumps)
    ensures ScanTo(tokens, idx + 1).Scanning? ==> ResolveInv(tokens, idx + 1, ScanTo(tokens, idx + 1).queue, ScanTo(tokens, idx + 1).jumps)
    ensures ScanTo(tokens, idx + 1).Stray? ==> ScanTo(tokens, idx + 1).at == idx && FirstUnderflow(tokens, idx) && !Balanced(tokens)
  {
    if tokens[idx] == Jum {
      PushKeepsInv(tokens, idx, queue, jumps);
    } else if tokens[idx] == Bac {
      if queue == [] {
        EmptyPopIsUnderflow(tokens, idx, queue, jumps);
      } else {
        PopKeepsInv(tokens, idx, queue, jumps);
      }
    } else {
      SkipKeepsInv(tokens, idx, queue, jumps);
    }
  }

  /** The resolver loop. Succeeds exactly on balanced streams; otherwise reports the first stray `Bac` or every open `Jum`. */
  method Resolve(tokens: seq<Token>) returns (r: Result<map<nat, nat>, ResolveError>)
    ensures r.Ok? <==> Balanced(tokens)
    ensures r.Ok? ==> IsJumpTable(tokens, r.value)
    ensures r.Err? && r.error.UnexpectedAt? ==> FirstUnderflow(tokens, r.error.idx)
    ensures r.Err? && r.error.Unclosed? ==>
      NeverNegative(tokens, |tokens|) && r.error.open != [] && Increasing(r.error.open)
      && forall i :: i in r.error.open <==> Unpaired(tokens, i)
  {
    var jumps: map<nat, nat> := map[];
    var queue: seq<nat> := [];
    for idx := 0 to |tokens|
      invariant ScanTo(tokens, idx) == Scanning(queue, jumps)
    {
      if tokens[idx] == Jum {
        queue := queue + [idx];
      } else if tokens[idx] == Bac {
        if queue == [] {
          ScanInvariant(tokens, idx + 1);
          return Err(UnexpectedAt(idx));
        }
        var temp := queue[|queue| - 1];
        queue := queue[..|queue| - 1];
        jumps := jumps[temp := idx][idx := temp];
      }
    }
    ScanInvariant(tokens, |tokens|);
    if queue != [] {
      LeftoverIsUnpaired(tokens, queue, jumps);
      return Err(Unclosed(queue));
    }
    EmptyIsTable(tokens, jumps);
    return Ok(jumps);
  }

  /** The first point where depth returns is unique. */
  lemma ClosesUnique(tokens: seq<Token>, i: nat, j1: nat, j2: nat)
    requires i < j1 < |tokens| && i < j2 < |tokens|
    requires Closes(tokens, i, j1) && Closes(tokens, i, j2)
    ensures j1 == j2
  {
  }

  /** A `Bac` closes at most one `Jum`. */
  lemma OpenerUnique(tokens: seq<Token>, i1: nat, i2: nat, j: nat)
    requires i1 < j < |tokens| && i2 < j
    requires Closes(tokens, i1, j) && Closes(tokens, i2, j)
    ensures i1 == i2
  {
  }

  /** Every entry of a jump table joins a `Jum` to the `Bac` that closes it, in one direction or the other. */
  lemma EntryCloses(tokens: seq<Token>, m: map<nat, nat>, i: nat)
    requires IsJumpTable(tokens, m) && i in m
    ensures m[i] < |tokens| && i < |tokens|
    ensures i < m[i] ==> Closes(tokens, i, m[i])
    ensures m[i] < i ==> Closes(tokens, m[i], i)
    ensures i < m[i] || m[i] < i
  {
    var j := m[i];
    assert j in m && m[j] == i;
  }

  /** Two jump tables for the same stream agree on every bracket. */
  lemma EntryUnique(tokens: seq<Token>, m1: map<nat, nat>, m2: map<nat, nat>, i: nat)
    requires IsJumpTable(tokens, m1) && IsJumpTable(tokens, m2) && i in m1 && i in m2
    ensures m1[i] == m2[i]
  {
    EntryCloses(tokens, m1, i);
    EntryCloses(tokens, m2, i);
    if i < m1[i] {
      ClosesUnique(tokens, i, m1[i], m2[i]);
    } else {
      OpenerUnique(tokens, m1[i], m2[i], i);
    }
  }

  /** The jump table of a stream is determined by the stream: the resolver has no choice to make. */
  lemma JumpTableUnique(tokens: seq<Token>, m1: map<nat, nat>, m2: map<nat, nat>)
    requires IsJumpTable(tokens, m1) && IsJumpTable(tokens, m2)
    ensures m1 == m2
  {
    assert m1.Keys == m2.Keys;
    forall i | i in m1 ensures m1[i] == m2[i] {
      EntryUnique(tokens, m1, m2, i);
    }
  }
}
