/**
 * How the mail files are divided among processes: batch_files_for_processes (client/src/client.c).
 */
module Batch {

  /** Both ends are included. */
  datatype Range = Range(first: int, last: int)

  /** The files for one process: n / k, rounded up. */
  function Pack(n: nat, k: nat): (p: nat)
    requires k > 0
    ensures p * k >= n && (p > 0 ==> (p - 1) * k < n)
  {
    if n % k != 0 then n / k + 1 else n / k
  }

  /** The ranges lie one behind the other from 0 up to `end`, none is empty, none longer than `pack`. */
  ghost predicate Consecutive(ranges: seq<Range>, end: int, pack: nat) {
    && (forall i :: 0 <= i < |ranges| ==> ranges[i].first <= ranges[i].last < ranges[i].first + pack)
    && (forall i :: 0 < i < |ranges| ==> ranges[i].first == ranges[i - 1].last + 1)
    && if ranges == [] then end == 0 else ranges[0].first == 0 && end == ranges[|ranges| - 1].last + 1
  }

  predicate Within(x: int, r: Range) {
    r.first <= x <= r.last
  }

  ghost predicate Covered(x: int, ranges: seq<Range>) {
    exists i :: 0 <= i < |ranges| && Within(x, ranges[i])
  }

  ghost predicate NotTwice(x: int, ranges: seq<Range>) {
    forall i, j :: 0 <= i < j < |ranges| ==> !(Within(x, ranges[i]) && Within(x, ranges[j]))
  }

  lemma OneMoreRange(x: int, ranges: seq<Range>, r: Range)
    ensures Covered(x, ranges + [r]) <==> Covered(x, ranges) || Within(x, r)
    ensures NotTwice(x, ranges) && !(Covered(x, ranges) && Within(x, r)) ==> NotTwice(x, ranges + [r])
  {
    var all := ranges + [r];
    assert all[|ranges|] == r && forall i :: 0 <= i < |ranges| ==> all[i] == ranges[i];
  }

  /** Then every number below `end` is in exactly one of them, and no other number is in any. */
  lemma {:induction false} ExactlyOnce(ranges: seq<Range>, end: int, pack: nat, x: int)
    requires Consecutive(ranges, end, pack)
    ensures Covered(x, ranges) <==> 0 <= x < end
    ensures NotTwice(x, ranges) && end >= 0
  {
    if ranges != [] {
      hide Consecutive, Covered, NotTwice;
      var n := |ranges| - 1;
      OneLess(ranges, end, pack);
      ExactlyOnce(ranges[..n], ranges[n].first, pack, x);
      OneMoreRange(x, ranges[..n], ranges[n]);
      assert ranges[..n] + [ranges[n]] == ranges;
    }
  }

  lemma OneLess(ranges: seq<Range>, end: int, pack: nat)
    requires Consecutive(ranges, end, pack) && ranges != []
    ensures var last := ranges[|ranges| - 1];
      Consecutive(ranges[..|ranges| - 1], last.first, pack) && last.first <= last.last && end == last.last + 1
  {
  }

  lemma NoneYet(pack: nat)
    ensures Consecutive([], 0, pack)
  {
  }

  lemma OneMore(ranges: seq<Range>, end: int, pack: nat, last: int)
    requires Consecutive(ranges, end, pack) && end <= last < end + pack
    ensures Consecutive(ranges + [Range(end, last)], last + 1, pack)
  {
    var r := ranges + [Range(end, last)];
    assert forall i :: 0 <= i < |ranges| ==> r[i] == ranges[i];
  }

  lemma NextMultiple(p: nat, a: nat)
    ensures p * a + p == p * (a + 1)
  {
  }

  /** One more process would be one too many. */
  lemma RoomLeft(n: nat, k: nat, ind: nat, pack: nat)
    requires pack * ind < n <= pack * k
    ensures ind < k
  {
    if ind >= k {
      MulMonotone(pack, k, ind);
    }
  }

  lemma MulMonotone(p: nat, a: nat, b: nat)
    requires a <= b
    ensures p * a <= p * b
  {
  }

  /**
   * The parent. `forks` gives the answers of fork(): a process id, or -1. Each started process works
   * on its range; `ranges` records them.
   */
  method BatchFilesForProcesses(mailsCount: nat, processesCount: nat, forks: nat -> int)
    returns (ret: int, ranges: seq<Range>, pids: array<int>)
    requires processesCount > 0
    requires forall i :: forks(i) == -1 || forks(i) > 0
    ensures pids.Length == processesCount && |ranges| <= processesCount
    ensures forall i :: 0 <= i < |ranges| ==> pids[i] == forks(i) > 0
    ensures exists end :: 0 <= end <= mailsCount && Consecutive(ranges, end, Pack(mailsCount, processesCount))
    ensures ret == 0 ==> Consecutive(ranges, mailsCount, Pack(mailsCount, processesCount))
    ensures ret != 0 ==> ret == -1 && forks(|ranges|) == -1
  {
    pids := new int[processesCount];
    var ind := 0;
    var start, end := 0, 0;
    hide Consecutive;
    ranges := [];
    var pack := mailsCount / processesCount;
    if mailsCount % processesCount != 0 {
      pack := pack + 1;
    }
    assert pack == Pack(mailsCount, processesCount);
    NoneYet(pack);
    hide Pack;
    while end < mailsCount
      invariant 0 <= end <= mailsCount && ind == |ranges| <= processesCount
      invariant Consecutive(ranges, end, pack)
      invariant end < mailsCount ==> end == pack * ind
      invariant forall i :: 0 <= i < ind ==> pids[i] == forks(i) > 0
      decreases mailsCount - end
    {
      RoomLeft(mailsCount, processesCount, ind, pack);
      NextMultiple(pack, ind);
      start := end;
      if end + pack >= mailsCount {
        end := mailsCount - 1;
      } else {
        end := end + pack - 1;
      }
      var forkResult := forks(ind);
      if forkResult == -1 {
        return -1, ranges, pids;
      }
      pids[ind] := forkResult;
      OneMore(ranges, start, pack, end);
      ranges := ranges + [Range(start, end)];
      ind := ind + 1;
      end := end + 1;
    }
    ret := 0;
  }
}
