/** The bounded reception history of a device session (api/rust/src/internal.rs). */
module History {
  import opened Bytes

  /** The last k items of s, or all of them. */
  function Last<T>(s: seq<T>, k: nat): (r: seq<T>)
    ensures |r| == if |s| < k then |s| else k
  {
    if |s| <= k then s else s[|s| - k..]
  }

  lemma LastOfLast<T>(s: seq<T>, x: T, k: nat)
    requires k > 0
    ensures Last(Last(s, k) + [x], k) == Last(s + [x], k)
  {}

  /** The history after xs have been appended to it in order. */
  function Run<T>(history: seq<T>, xs: seq<T>, maxHistory: nat): seq<T> {
    if xs == [] then history
    else Last(Run(history, xs[..|xs| - 1], maxHistory) + [xs[|xs| - 1]], maxHistory)
  }

  /** However many appends, from whatever history, what is kept is the tail of all that was ever there. */
  lemma {:induction false} RunKeepsLast<T>(history: seq<T>, xs: seq<T>, maxHistory: nat)
    requires maxHistory > 0 && xs != []
    ensures Run(history, xs, maxHistory) == Last(history + xs, maxHistory)
    ensures var all := history + xs;
            Run(history, xs, maxHistory) == if |all| <= maxHistory then all else all[|all| - maxHistory..]
  {
    var before, x := xs[..|xs| - 1], xs[|xs| - 1];
    if before == [] {
      assert xs == [x];
    } else {
      RunKeepsLast(history, before, maxHistory);
      LastOfLast(history + before, x, maxHistory);
      assert history + xs == history + before + [x];
    }
  }

  class DeviceSession<T> {
    var gatewayRxInfoHistory: seq<T>

    constructor ()
      ensures gatewayRxInfoHistory == []
    {
      gatewayRxInfoHistory := [];
    }

    /** Makes room and appends. A limit of 0 asks for a slice past the end, which is the error. */
    method AppendGatewayRxInfoHistory(item: T, maxHistory: nat) returns (r: Result<()>)
      modifies this
      ensures r.Ok? <==> maxHistory > 0
      ensures r.Ok? ==> gatewayRxInfoHistory == Last(old(gatewayRxInfoHistory) + [item], maxHistory)
      ensures r.Ok? ==>
                var all := old(gatewayRxInfoHistory) + [item];
                gatewayRxInfoHistory == if |all| <= maxHistory then all else all[|all| - maxHistory..]
      ensures r.Err? ==> gatewayRxInfoHistory == old(gatewayRxInfoHistory)
    {
      if |gatewayRxInfoHistory| >= maxHistory {
        var startIndex := |gatewayRxInfoHistory| - maxHistory + 1;
        if startIndex > |gatewayRxInfoHistory| {
          return Err;
        }
        gatewayRxInfoHistory := gatewayRxInfoHistory[startIndex..];
      }
      gatewayRxInfoHistory := gatewayRxInfoHistory + [item];
      return Ok(());
    }

    /** Any number of appends to a new session leave its last items, in order. */
    method AppendAll(items: seq<T>, maxHistory: nat)
      requires maxHistory > 0 && gatewayRxInfoHistory == []
      modifies this
      ensures gatewayRxInfoHistory == if |items| <= maxHistory then items else items[|items| - maxHistory..]
    {
      for i := 0 to |items|
        invariant gatewayRxInfoHistory == Run([], items[..i], maxHistory)
      {
        assert items[..i + 1][..i] == items[..i];
        var r := AppendGatewayRxInfoHistory(items[i], maxHistory);
      }
      assert items[..|items|] == items;
      if items != [] {
        RunKeepsLast([], items, maxHistory);
        assert [] + items == items;
      }
    }
  }
}
