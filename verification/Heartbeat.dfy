/** The heartbeat of a slave node: when pings mark it offline, when they bring it back, and what they carry. */
module Heartbeat {

  /** How many of the latest pings failed in a row. */
  function TrailingFailures(pings: seq<bool>): nat {
    if pings == [] || pings[|pings| - 1] then 0 else 1 + TrailingFailures(pings[..|pings| - 1])
  }

  /** slave_node_retry, which is compared only after a failure was counted: below one it acts as one. */
  function Threshold(retrySetting: int): (n: nat)
    ensures n >= 1 && n >= retrySetting && (n == 1 || n == retrySetting)
  {
    if retrySetting < 1 then 1 else retrySetting
  }

  ghost predicate Offline(pings: seq<bool>, threshold: nat) {
    TrailingFailures(pings) >= threshold
  }

  /** The status after the pings, for a loop that starts on a node of the given status. */
  ghost predicate ActiveAfter(started: bool, pings: seq<bool>, threshold: nat) {
    if Offline(pings, threshold) then false else started || true in pings
  }

  /** The ping at index `i` tells the slave about its master: the first one, and the one after a recovery. */
  ghost predicate CarriesUpdate(pings: seq<bool>, i: nat, threshold: nat)
    requires i <= |pings|
  {
    i == 0 || (pings[i - 1] && Offline(pings[..i - 1], threshold))
  }

  /** The status changes, in order, that subscribers hear about. */
  ghost function StatusChanges(started: bool, pings: seq<bool>, threshold: nat): seq<bool> {
    if pings == [] then [] else
      var init := pings[..|pings| - 1];
      var now := ActiveAfter(started, pings, threshold);
      StatusChanges(started, init, threshold) + (if now != ActiveAfter(started, init, threshold) then [now] else [])
  }

  ghost predicate Alternates(first: bool, changes: seq<bool>) {
    forall i :: 0 <= i < |changes| ==> changes[i] == (if i % 2 == 0 then first else !first)
  }

  /** Subscribers hear of every change exactly once: what they hear alternates and ends with the present status. */
  lemma {:induction false} ChangesAlternate(started: bool, pings: seq<bool>, threshold: nat)
    requires threshold >= 1
    ensures var changes := StatusChanges(started, pings, threshold);
            Alternates(!started, changes) &&
            ActiveAfter(started, pings, threshold) == (if changes == [] then started else changes[|changes| - 1])
    decreases |pings|
  {
    if pings != [] {
      ChangesAlternate(started, pings[..|pings| - 1], threshold);
    }
  }

  /** A node goes offline with the failure that completes the run, and comes back with the next success. */
  lemma StatusFlipsExactly(started: bool, pings: seq<bool>, ok: bool, threshold: nat)
    requires threshold >= 1
    ensures ActiveAfter(started, pings, threshold) && !ActiveAfter(started, pings + [ok], threshold) <==>
            (started || true in pings) && !ok && TrailingFailures(pings) == threshold - 1
    ensures !ActiveAfter(started, pings, threshold) && ActiveAfter(started, pings + [ok], threshold) <==>
            ok && (Offline(pings, threshold) || !(started || true in pings))
  {
  }

  ghost predicate AllFailed(pings: seq<bool>, i: int, j: int)
    requires 0 <= i <= j <= |pings|
  {
    forall k :: i <= k < j ==> !pings[k]
  }

  /** A node is offline exactly if so many of its latest pings in a row have failed. */
  lemma {:induction false} OfflineExactly(pings: seq<bool>, n: nat, threshold: nat)
    requires threshold >= 1 && n <= |pings|
    ensures Offline(pings[..n], threshold) <==> threshold <= n && AllFailed(pings, n - threshold, n)
    decreases n
  {
    if n > 0 {
      assert pings[..n][..n - 1] == pings[..n - 1];
      if threshold > 1 {
        OfflineExactly(pings, n - 1, threshold - 1);
      }
    }
  }

  /** The status after the pings: offline after a run of failures that is long enough, else active if the node started so
      or a ping has succeeded.  The slave is told about its master with the first ping, and with the ping after a success
      that ended such a run. */
  lemma StatusAndUpdatesExactly(started: bool, pings: seq<bool>, n: nat, threshold: nat)
    requires threshold >= 1 && n <= |pings|
    ensures ActiveAfter(started, pings, threshold) <==>
              !(threshold <= |pings| && AllFailed(pings, |pings| - threshold, |pings|)) &&
              (started || exists i :: 0 <= i < |pings| && pings[i])
    ensures CarriesUpdate(pings, n, threshold) <==>
              n == 0 || (pings[n - 1] && threshold <= n - 1 && AllFailed(pings, n - 1 - threshold, n - 1))
  {
    assert pings[..|pings|] == pings;
    OfflineExactly(pings, |pings|, threshold);
    if n > 0 {
      OfflineExactly(pings, n - 1, threshold);
    }
  }

  class SlaveNode {
    var active: bool
    var heard: seq<bool>     // what the callback was told
    var sent: seq<bool>      // IsUpdate of each ping
    const retrySetting: int
    const pingInterval: nat
    const recoverInterval: nat

    constructor (active: bool, retrySetting: int, pingInterval: nat, recoverInterval: nat)
      ensures this.active == active && heard == [] && sent == []
    {
      this.active, heard, sent := active, [], [];
      this.retrySetting, this.pingInterval, this.recoverInterval := retrySetting, pingInterval, recoverInterval;
    }

    method ChangeStatus(isActive: bool)
      modifies this`active, this`heard
      ensures active == isActive
      ensures heard == old(heard) + (if isActive != old(active) then [isActive] else [])
    {
      if isActive != active {
        active := isActive;
        heard := heard + [isActive];
      }
    }

    /** The loop, for pings that end as `pings` tells; it returns how long it would wait for the next one. */
    method PingLoop(pings: seq<bool>) returns (recoverMode: bool, pingTicker: nat, isFirstLoop: bool)
      requires sent == [] && heard == []
      modifies this
      ensures active == ActiveAfter(old(active), pings, Threshold(retrySetting))
      ensures recoverMode == Offline(pings, Threshold(retrySetting))
      ensures pings != [] && pingInterval > 0 && recoverInterval > 0 ==>
                pingTicker == if recoverMode then recoverInterval else pingInterval
      ensures |sent| == |pings|
      ensures forall i :: 0 <= i < |pings| ==> sent[i] == CarriesUpdate(pings, i, Threshold(retrySetting))
      ensures isFirstLoop == CarriesUpdate(pings, |pings|, Threshold(retrySetting))
      ensures heard == StatusChanges(old(active), pings, Threshold(retrySetting))
    {
      ghost var threshold := Threshold(retrySetting);
      var retry: nat := 0;
      recoverMode, pingTicker, isFirstLoop := false, 0, true;
      for i := 0 to |pings|
        invariant retry == TrailingFailures(pings[..i])
        invariant recoverMode == Offline(pings[..i], threshold)
        invariant i == 0 ==> pingTicker == 0
        invariant i > 0 && pingInterval > 0 && recoverInterval > 0 ==>
                    pingTicker == if recoverMode then recoverInterval else pingInterval
        invariant active == ActiveAfter(old(active), pings[..i], threshold)
        invariant isFirstLoop == CarriesUpdate(pings, i, threshold)
        invariant |sent| == i && forall k :: 0 <= k < i ==> sent[k] == CarriesUpdate(pings, k, threshold)
        invariant heard == StatusChanges(old(active), pings[..i], threshold)
      {
        assert pings[..i + 1][..i] == pings[..i];
        assert true in pings[..i + 1] <==> pings[i] || true in pings[..i];
        if pingTicker == 0 {
          pingTicker := pingInterval;
        }
        sent := sent + [isFirstLoop];
        isFirstLoop := false;
        if !pings[i] {
          retry := retry + 1;
          if retry >= retrySetting {
            ChangeStatus(false);
            if !recoverMode {
              pingTicker := recoverInterval;
              recoverMode := true;
            }
          }
        } else {
          if recoverMode {
            pingTicker := pingInterval;
            recoverMode := false;
            isFirstLoop := true;
          }
          ChangeStatus(true);
          retry := 0;
        }
      }
      assert pings[..|pings|] == pings;
    }
  }
}
