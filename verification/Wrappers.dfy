/** Failure-carrying results shared by every module. */
module Wrappers {

  datatype Option<+T> = None | Some(value: T)

  datatype Result<+T, +E> = Ok(value: T) | Err(error: E)
}

/** JSON values as the filter language and the record store see them. */
module Json {

  /** A JSON number keeps whether it was written as an integer or as a float: two numbers of different representation
      are different values. */
  datatype Number = Int(i: int) | Float(r: real) {
    function AsReal(): real {
      match this
      case Int(i) => i as real
      case Float(r) => r
    }
  }

  datatype Value =
    | Null
    | Bool(b: bool)
    | Num(n: Number)
    | Str(s: string)
    | Array(items: seq<Value>)
    | Object(entries: map<string, Value>)
}

/** Runs that are sound up to their first bad step. */
module Divergence {

  /** If each step out of a good state is good exactly when `safe`, all states are good exactly when all steps are
      safe. */
  lemma {:induction false} FirstDivergence(good: seq<bool>, safe: seq<bool>)
    requires |good| == |safe| + 1 && good[0]
    requires forall i | 0 <= i < |safe| && good[i] :: good[i + 1] <==> safe[i]
    ensures (forall i | 0 <= i < |good| :: good[i]) <==> (forall i | 0 <= i < |safe| :: safe[i])
  {
    if forall i | 0 <= i < |safe| :: safe[i] {
      for n := 0 to |safe|
        invariant forall i | 0 <= i <= n :: good[i]
      {
        assert good[n + 1] <==> safe[n];
      }
    }
    if forall i | 0 <= i < |good| :: good[i] {
      forall i | 0 <= i < |safe| ensures safe[i] { assert good[i] && good[i + 1]; }
    }
  }

  /** The same for a visible part of goodness: out of a good state, safety, visibility and goodness of the next state
      coincide. */
  lemma FirstVisibleDivergence(good: seq<bool>, seen: seq<bool>, safe: seq<bool>)
    requires |good| == |safe| + 1 && |seen| == |safe| + 1 && good[0]
    requires forall i | 0 <= i < |good| && good[i] :: seen[i]
    requires forall i | 0 <= i < |safe| && good[i] :: (good[i + 1] <==> safe[i]) && (seen[i + 1] <==> safe[i])
    ensures (forall i | 0 <= i < |seen| :: seen[i]) <==> (forall i | 0 <= i < |safe| :: safe[i])
  {
    if forall i | 0 <= i < |seen| :: seen[i] {
      for n := 0 to |safe|
        invariant good[n] && forall i | 0 <= i < n :: safe[i]
      {
        assert seen[n + 1];
      }
    }
    FirstDivergence(good, safe);
  }
}

/** Machine integer widths. */
module Widths {
  const U32: int := 0x1_0000_0000
}

/** Positions picked from a sequence. */
module Positions {

  /** `ks` lists, in order, exactly the positions that are marked. */
  ghost predicate Picks(ks: seq<nat>, at: seq<bool>) {
    && (forall i, j | 0 <= i < j < |ks| :: ks[i] < ks[j])
    && (forall k | k in ks :: k < |at| && at[k])
    && (forall k | 0 <= k < |at| && at[k] :: k in ks)
  }

  lemma PicksOneMore(ks: seq<nat>, at: seq<bool>, b: bool)
    requires Picks(ks, at)
    ensures Picks(if b then ks + [|at|] else ks, at + [b])
  {
    var more := if b then ks + [|at|] else ks;
    forall i, j | 0 <= i < j < |more| ensures more[i] < more[j] { assert i < |ks| ==> ks[i] in ks; }
    forall k | 0 <= k < |at + [b]| && (at + [b])[k] ensures k in more { assert k < |at| ==> at[k]; }
  }
}
