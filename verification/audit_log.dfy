/** The in-memory stream key log: a list of at most 100 decision entries and
    a counter, starting at 1, that numbers every entry ever made. Both live
    behind locks held for a whole append, so an append is one atomic step
    from one log state to the next. */
module AuditLog {

  const Capacity := 100

  /** One logged decision: its serial number, the local time it was made
      (already rendered as text), the full stream name and the message. */
  datatype Entry = Entry(sNo: nat, datetime: string, streamkey: string, msg: string)

  /** The log list and the number the next entry will get. */
  datatype Log = Log(entries: seq<Entry>, next: nat)

  /** What one append is asked to record. */
  datatype Request = Request(streamkey: string, msg: string, datetime: string)

  function Min(a: int, b: int): int {
    if a <= b then a else b
  }

  /** The newest `n` elements of `s` (all of them when there are fewer),
      oldest first. */
  function Newest<T>(s: seq<T>, n: nat): (r: seq<T>)
    ensures |r| == Min(|s|, n)
    ensures r == s[|s| - |r|..]
  {
    if |s| <= n then s else s[|s| - n..]
  }

  /** What every log reachable from the start satisfies: entries are numbered
      consecutively up to next - 1, and the list holds the newest
      min(next - 1, Capacity) of them. */
  predicate Valid(log: Log) {
    && log.next >= 1
    && |log.entries| == Min(log.next - 1, Capacity)
    && forall i :: 0 <= i < |log.entries| ==> log.entries[i].sNo == log.next - |log.entries| + i
  }

  /** The state before any append. */
  function Init(): (log: Log)
    ensures Valid(log) && |log.entries| == 0 && log.next == 1
  {
    Log([], 1)
  }

  /** Push an entry numbered with the counter, drop the head if the list
      went over capacity, then advance the counter. */
  function Append(log: Log, streamkey: string, msg: string, datetime: string): (r: Log)
    ensures r.next == log.next + 1
    ensures |r.entries| >= 1 && r.entries[|r.entries| - 1] == Entry(log.next, datetime, streamkey, msg)
  {
    var pushed := log.entries + [Entry(log.next, datetime, streamkey, msg)];
    var kept := if |pushed| > Capacity then pushed[1..] else pushed;
    Log(kept, log.next + 1)
  }

  /** An append keeps the numbering consecutive and the size at
      min(next - 1, Capacity). */
  lemma AppendKeepsValid(log: Log, streamkey: string, msg: string, datetime: string)
    requires Valid(log)
    ensures Valid(Append(log, streamkey, msg, datetime))
  {
  }

  /** Below capacity an append keeps every entry; at capacity it drops the
      oldest: either way the list is the newest Capacity entries after the
      push. */
  lemma AppendKeepsNewest(log: Log, streamkey: string, msg: string, datetime: string)
    requires |log.entries| <= Capacity
    ensures Append(log, streamkey, msg, datetime).entries == Newest(log.entries + [Entry(log.next, datetime, streamkey, msg)], Capacity)
  {
  }

  /** The copy of the log list handed to readers, oldest first. */
  function Snapshot(log: Log): (r: seq<Entry>)
    ensures Valid(log) ==> |r| <= Capacity
    ensures Valid(log) ==> forall i, j :: 0 <= i < j < |r| ==> r[i].sNo < r[j].sNo
    ensures Valid(log) && |r| > 0 ==> r[|r| - 1].sNo == log.next - 1
    ensures Valid(log) && log.next > Capacity ==> |r| == Capacity
  {
    log.entries
  }

  /** Appends applied one after another in the order the lock admits them;
      the last request is the last append. */
  function AppendAll(log: Log, reqs: seq<Request>): Log
  {
    if |reqs| == 0 then log
    else
      var last := reqs[|reqs| - 1];
      Append(AppendAll(log, reqs[..|reqs| - 1]), last.streamkey, last.msg, last.datetime)
  }

  /** The entry a request becomes when the counter stands at `sNo`. */
  function EntryOf(sNo: nat, req: Request): Entry {
    Entry(sNo, req.datetime, req.streamkey, req.msg)
  }

  /** The entries that the requests create when the counter stands at `first`. */
  function Issued(first: nat, reqs: seq<Request>): (r: seq<Entry>)
    ensures |r| == |reqs|
  {
    seq(|reqs|, i requires 0 <= i < |reqs| => EntryOf(first + i, reqs[i]))
  }

  lemma IssuedSnoc(first: nat, reqs: seq<Request>)
    requires |reqs| > 0
    ensures Issued(first, reqs) == Issued(first, reqs[..|reqs| - 1]) + [EntryOf(first + |reqs| - 1, reqs[|reqs| - 1])]
  {
  }

  /** Trimming before more elements arrive changes nothing once they are
      trimmed again. */
  lemma NewestAbsorbs<T>(x: seq<T>, y: seq<T>, n: nat)
    ensures Newest(Newest(x, n) + y, n) == Newest(x + y, n)
  {
    if |x| > n {
      var u := x + y;
      var c := Newest(x, n) + y;
      assert c == u[|x| - n..];
      assert u[|x| - n..][|c| - Min(|c|, n)..] == u[|u| - Min(|u|, n)..];
    }
  }

  lemma Associative<T>(a: seq<T>, b: seq<T>, c: seq<T>)
    ensures a + b + c == a + (b + c)
  {
  }

  /** The entries after one more request: those before it, then its own. */
  lemma IssuedExtend(entries: seq<Entry>, first: nat, reqs: seq<Request>)
    requires |reqs| > 0
    ensures entries + Issued(first, reqs) ==
      (entries + Issued(first, reqs[..|reqs| - 1])) + [EntryOf(first + |reqs| - 1, reqs[|reqs| - 1])]
  {
    IssuedSnoc(first, reqs);
    Associative(entries, Issued(first, reqs[..|reqs| - 1]), [EntryOf(first + |reqs| - 1, reqs[|reqs| - 1])]);
  }

  /** One append to a log holding the newest of `before` leaves the newest of
      `whole`, that is `before` followed by the request's entry. */
  lemma AppendStep(before: seq<Entry>, whole: seq<Entry>, next: nat, req: Request)
    requires whole == before + [EntryOf(next, req)]
    ensures Append(Log(Newest(before, Capacity), next), req.streamkey, req.msg, req.datetime) ==
      Log(Newest(whole, Capacity), next + 1)
  {
    AppendKeepsNewest(Log(Newest(before, Capacity), next), req.streamkey, req.msg, req.datetime);
    NewestAbsorbs(before, [EntryOf(next, req)], Capacity);
  }

  /** The induction step of AppendAllKeepsNewest: if the first requests left
      the newest of everything issued so far, one more request does too. */
  lemma AppendAllStep(log: Log, reqs: seq<Request>, prev: Log)
    requires |reqs| > 0
    requires prev == Log(Newest(log.entries + Issued(log.next, reqs[..|reqs| - 1]), Capacity), log.next + |reqs| - 1)
    ensures Append(prev, reqs[|reqs| - 1].streamkey, reqs[|reqs| - 1].msg, reqs[|reqs| - 1].datetime) ==
      Log(Newest(log.entries + Issued(log.next, reqs), Capacity), log.next + |reqs|)
  {
    IssuedExtend(log.entries, log.next, reqs);
    AppendStep(log.entries + Issued(log.next, reqs[..|reqs| - 1]), log.entries + Issued(log.next, reqs),
      log.next + |reqs| - 1, reqs[|reqs| - 1]);
  }

  /** However many appends run, the log holds exactly the newest (at most
      Capacity) of all entries, and the entries created by those appends are
      numbered next, next + 1, ... in the order the appends took place. */
  lemma {:induction false} AppendAllKeepsNewest(log: Log, reqs: seq<Request>)
    requires |log.entries| <= Capacity
    ensures AppendAll(log, reqs) == Log(Newest(log.entries + Issued(log.next, reqs), Capacity), log.next + |reqs|)
  {
    if |reqs| == 0 {
      assert log.entries + Issued(log.next, reqs) == log.entries;
    } else {
      AppendAllKeepsNewest(log, reqs[..|reqs| - 1]);
      AppendAllStep(log, reqs, AppendAll(log, reqs[..|reqs| - 1]));
    }
  }

  /** The newest entries issued from 1 are numbered consecutively up to the
      number of requests. */
  lemma NewestNumbering(reqs: seq<Request>)
    ensures var snap := Newest(Issued(1, reqs), Capacity);
      forall k :: 0 <= k < |snap| ==> snap[k].sNo == |reqs| - |snap| + 1 + k
  {
  }

  /** From the start, the snapshot after n appends is the newest (at most 100)
      of them, numbered 1..n, and the counter stands at n + 1. */
  lemma HistoryFromStart(reqs: seq<Request>)
    ensures Snapshot(AppendAll(Init(), reqs)) == Newest(Issued(1, reqs), Capacity)
    ensures AppendAll(Init(), reqs).next == |reqs| + 1
  {
    AppendAllKeepsNewest(Init(), reqs);
    assert [] + Issued(1, reqs) == Issued(1, reqs);
  }

  /** Entry 1 is gone from the snapshot once the 101st append is made. */
  lemma FirstEvicted(reqs: seq<Request>)
    requires |reqs| > Capacity
    ensures forall e :: e in Snapshot(AppendAll(Init(), reqs)) ==> e.sNo != 1
  {
    HistoryFromStart(reqs);
    NewestNumbering(reqs);
  }
}
