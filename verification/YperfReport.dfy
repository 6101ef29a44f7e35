/**
 The profile report of nixpkgs/pkgs/yperf-wasm/yperf.c: one pass over records in order of exit that works
 out self times with a stack of calls whose caller is still to come, adds them up by function, and sorts.
 */
module YperfReport {
  datatype Record = Record(fn: nat, enter: nat, exit: nat)

  function Duration(r: Record): int { r.exit - r.enter }

  /** A call and the calls it made. */
  datatype Call = Call(record: Record, children: seq<Call>)

  /** The calls happen one after the other from `start` on, each around its own children. */
  predicate Timed(calls: seq<Call>, start: nat, end: nat) {
    if calls == [] then start <= end
    else
      var last := calls[|calls| - 1];
      && Timed(calls[..|calls| - 1], start, last.record.enter)
      && Timed(last.children, last.record.enter, last.record.exit)
      && last.record.enter <= last.record.exit <= end
  }

  /** The records as they are written: each call after its children. */
  function Written(calls: seq<Call>): seq<Record> {
    if calls == [] then []
    else
      var last := calls[|calls| - 1];
      Written(calls[..|calls| - 1]) + Written(last.children) + [last.record]
  }

  function TotalTime(calls: seq<Call>): int {
    if calls == [] then 0 else TotalTime(calls[..|calls| - 1]) + Duration(calls[|calls| - 1].record)
  }

  /** A call's own time: its duration without its direct children. */
  function OwnTime(c: Call): int { Duration(c.record) - TotalTime(c.children) }

  /** The own times, in the order of the records. */
  function OwnTimes(calls: seq<Call>): seq<int> {
    if calls == [] then []
    else
      var last := calls[|calls| - 1];
      OwnTimes(calls[..|calls| - 1]) + OwnTimes(last.children) + [OwnTime(last)]
  }

  function Sum(s: seq<int>): int { if s == [] then 0 else Sum(s[..|s| - 1]) + s[|s| - 1] }

  lemma {:induction false} SumConcat(a: seq<int>, b: seq<int>)
    ensures Sum(a + b) == Sum(a) + Sum(b)
  {
    if b == [] {
      assert a + b == a;
    } else {
      SumConcat(a, b[..|b| - 1]);
      assert (a + b)[..|a + b| - 1] == a + b[..|b| - 1];
    }
  }

  /** Conservation: all the own times together are the time of the outermost calls. */
  lemma {:induction false} OwnTimesConserve(calls: seq<Call>)
    ensures Sum(OwnTimes(calls)) == TotalTime(calls)
  {
    if calls != [] {
      var most, last := calls[..|calls| - 1], calls[|calls| - 1];
      OwnTimesConserve(most);
      OwnTimesConserve(last.children);
      SumConcat(OwnTimes(most), OwnTimes(last.children));
      SumConcat(OwnTimes(most) + OwnTimes(last.children), [OwnTime(last)]);
      assert [OwnTime(last)][..0] == [];
    }
  }

  lemma {:induction false} SameCount(calls: seq<Call>)
    ensures |Written(calls)| == |OwnTimes(calls)|
  {
    if calls != [] {
      SameCount(calls[..|calls| - 1]);
      SameCount(calls[|calls| - 1].children);
    }
  }

  /** What is between two moments takes no longer than they are apart. */
  lemma {:induction false} TotalFits(calls: seq<Call>, start: nat, end: nat)
    requires Timed(calls, start, end)
    ensures start <= end && 0 <= TotalTime(calls) <= end - start
  {
    if calls != [] {
      TotalFits(calls[..|calls| - 1], start, calls[|calls| - 1].record.enter);
    }
  }

  predicate Inside(inner: Record, outer: Record) {
    inner.enter >= outer.enter && inner.exit <= outer.exit
  }

  /** How deep the stack still is once every record inside `r` has been popped off its top. */
  function Popped(stack: seq<Record>, r: Record): (k: nat)
    ensures k <= |stack|
  {
    if stack != [] && Inside(stack[|stack| - 1], r) then Popped(stack[..|stack| - 1], r) else |stack|
  }

  function Times(stack: seq<Record>): int {
    if stack == [] then 0 else Times(stack[..|stack| - 1]) + Duration(stack[|stack| - 1])
  }

  function Self(stack: seq<Record>, r: Record): int {
    var children := Times(stack[Popped(stack, r)..]);
    if Duration(r) > children then Duration(r) - children else 0
  }

  function Push(stack: seq<Record>, r: Record): seq<Record> {
    stack[..Popped(stack, r)] + [r]
  }

  datatype Walk = Walk(stack: seq<Record>, selfs: seq<int>)

  /** The pass over the records. */
  function WalkAll(stack: seq<Record>, records: seq<Record>): Walk {
    if records == [] then Walk(stack, [])
    else
      var before := WalkAll(stack, records[..|records| - 1]);
      var r := records[|records| - 1];
      Walk(Push(before.stack, r), before.selfs + [Self(before.stack, r)])
  }

  lemma {:induction false} WalkConcat(stack: seq<Record>, a: seq<Record>, b: seq<Record>)
    ensures var first := WalkAll(stack, a); var second := WalkAll(first.stack, b);
            WalkAll(stack, a + b) == Walk(second.stack, first.selfs + second.selfs)
  {
    hide Push, Self;
    if b == [] {
      assert a + b == a;
    } else {
      WalkConcat(stack, a, b[..|b| - 1]);
      assert (a + b)[..|a + b| - 1] == a + b[..|b| - 1];
    }
  }

  /** Everything on the stack is over by `t`. */
  predicate Over(stack: seq<Record>, t: nat) {
    forall i :: 0 <= i < |stack| ==> stack[i].enter <= stack[i].exit <= t
  }

  /** Records without duration come and go without a trace in the sums. */
  predicate Instants(stack: seq<Record>) {
    forall i :: 0 <= i < |stack| ==> stack[i].enter == stack[i].exit
  }

  /** What a stretch of calls leaves: some instants gone from the top, and records of its own. */
  ghost predicate Left(stack: seq<Record>, after: seq<Record>, k: nat, start: nat, end: nat, time: int) {
    && k <= |stack| && k <= |after| && after[..k] == stack[..k]
    && Instants(stack[k..])
    && Over(after, end)
    && (forall i :: k <= i < |after| ==> start <= after[i].enter)
    && Times(after[k..]) == time
  }

  lemma {:induction false} TimesConcat(a: seq<Record>, b: seq<Record>)
    ensures Times(a + b) == Times(a) + Times(b)
  {
    if b == [] {
      assert a + b == a;
    } else {
      TimesConcat(a, b[..|b| - 1]);
      assert (a + b)[..|a + b| - 1] == a + b[..|b| - 1];
    }
  }

  lemma {:induction false} InstantsTakeNoTime(stack: seq<Record>)
    requires Instants(stack)
    ensures Times(stack) == 0
  {
    if stack != [] {
      InstantsTakeNoTime(stack[..|stack| - 1]);
    }
  }

  /** A record pops what is inside it, and below that only instants. */
  lemma {:induction false} PopsToInstants(stack: seq<Record>, k: nat, r: Record)
    requires k <= |stack| && Over(stack[..k], r.enter) && forall i :: k <= i < |stack| ==> Inside(stack[i], r)
    ensures var p := Popped(stack, r); p <= k && Instants(stack[p..k])
  {
    if |stack| > k {
      var less := stack[..|stack| - 1];
      PopsToInstants(less, k, r);
      assert less[..k] == stack[..k];
      assert less[Popped(stack, r)..k] == stack[Popped(stack, r)..k];
    } else if stack != [] && Inside(stack[k - 1], r) {
      var less := stack[..k - 1];
      assert less[..k - 1] == less && stack[..k] == stack && stack[..k][k - 1] == stack[k - 1];
      OverPrefix(stack, k - 1, r.enter);
      PopsToInstants(less, k - 1, r);
      var p := Popped(stack, r);
      assert stack[p..k] == less[p..k - 1] + [stack[k - 1]];
    }
  }

  lemma OverPrefix(stack: seq<Record>, k: nat, t: nat)
    requires k <= |stack| && Over(stack, t)
    ensures Over(stack[..k], t)
  {
  }

  lemma TimesSplit(stack: seq<Record>, p: nat, k: nat)
    requires p <= k <= |stack|
    ensures Times(stack[p..]) == Times(stack[p..k]) + Times(stack[k..])
  {
    TimesConcat(stack[p..k], stack[k..]);
    assert stack[p..] == stack[p..k] + stack[k..];
  }

  lemma TimesOne(r: Record)
    ensures Times([r]) == Duration(r)
  {
    assert [r][..0] == [];
  }

  /** One record after its children: its own time is right, and it stands in for them. */
  lemma WalkOne(stack: seq<Record>, after: seq<Record>, k: nat, r: Record, children: int) returns (p: nat)
    requires Over(stack, r.enter) && Left(stack, after, k, r.enter, r.exit, children)
    requires r.enter <= r.exit && 0 <= children <= Duration(r)
    ensures Self(after, r) == Duration(r) - children
    ensures p <= |stack| && Push(after, r) == stack[..p] + [r] && Instants(stack[p..])
  {
    p := Popped(after, r);
    assert after[..k] == stack[..k];
    OverPrefix(stack, k, r.enter);
    PopsToInstants(after, k, r);
    TimesSplit(after, p, k);
    InstantsTakeNoTime(after[p..k]);
    assert after[..p] == stack[..k][..p] == stack[..p];
    assert stack[p..] == after[p..k] + stack[k..] by { assert stack[p..k] == stack[..k][p..] == after[..k][p..] == after[p..k]; }
  }

  /** The next call among its siblings. */
  lemma LeftNext(stack: seq<Record>, mid: seq<Record>, k: nat, p: nat, start: nat, r: Record, end: nat, time: int) returns (k': nat)
    requires start <= r.enter <= r.exit <= end && p <= |mid|
    requires Left(stack, mid, k, start, r.enter, time) && Instants(mid[p..])
    ensures k' <= |stack| && Left(stack, mid[..p] + [r], k', start, end, time + Duration(r))
  {
    hide Left;
    if p <= k {
      LeftBelow(stack, mid, k, p, start, r, end, time);
      k' := p;
    } else {
      LeftAbove(stack, mid, k, p, start, r, end, time);
      k' := k;
    }
  }

  /** The call popped everything its elder siblings left: they were all instants. */
  lemma LeftBelow(stack: seq<Record>, mid: seq<Record>, k: nat, p: nat, start: nat, r: Record, end: nat, time: int)
    requires start <= r.enter <= r.exit <= end && p <= k && p <= |mid|
    requires Left(stack, mid, k, start, r.enter, time) && Instants(mid[p..])
    ensures p <= |stack| && Left(stack, mid[..p] + [r], p, start, end, time + Duration(r))
  {
    hide Times;
    var after := mid[..p] + [r];
    TimesOne(r);
    assert mid[k..] == mid[p..][k - p..];
    assert Instants(mid[k..]);
    InstantsTakeNoTime(mid[k..]);
    assert stack[p..k] == stack[..k][p..] == mid[..k][p..] == mid[p..k] == mid[p..][..k - p];
    assert stack[p..] == stack[p..k] + stack[k..];
    assert after[p..] == [r];
    assert after[..p] == mid[..k][..p] == stack[..p];
  }

  lemma LeftAbove(stack: seq<Record>, mid: seq<Record>, k: nat, p: nat, start: nat, r: Record, end: nat, time: int)
    requires start <= r.enter <= r.exit <= end && k < p <= |mid|
    requires Left(stack, mid, k, start, r.enter, time) && Instants(mid[p..])
    ensures k <= |stack| && Left(stack, mid[..p] + [r], k, start, end, time + Duration(r))
  {
    hide Times;
    var after := mid[..p] + [r];
    TimesOne(r);
    TimesSplit(mid, k, p);
    InstantsTakeNoTime(mid[p..]);
    TimesConcat(mid[k..p], [r]);
    assert after[k..] == mid[k..p] + [r];
    assert after[..k] == mid[..k];
  }

  lemma {:induction false} WalkCalls(stack: seq<Record>, calls: seq<Call>, start: nat, end: nat) returns (k: nat)
    requires Over(stack, start) && Timed(calls, start, end)
    ensures var w := WalkAll(stack, Written(calls));
            w.selfs == OwnTimes(calls) && Left(stack, w.stack, k, start, end, TotalTime(calls))
    decreases calls
  {
    hide Push, Self, Left, WalkAll;
    if calls == [] {
      k := |stack|;
      NothingLeft(stack, start, end);
    } else {
      var most, last := calls[..|calls| - 1], calls[|calls| - 1];
      var r := last.record;
      var first := WalkAll(stack, Written(most));
      var k1 := WalkCalls(stack, most, start, r.enter);
      LeftOver(stack, first.stack, k1, start, r.enter, TotalTime(most));
      var second := WalkAll(first.stack, Written(last.children));
      var k2 := WalkCalls(first.stack, last.children, r.enter, r.exit);
      TotalFits(last.children, r.enter, r.exit);
      TotalFits(most, start, r.enter);
      var p := WalkOne(first.stack, second.stack, k2, r, TotalTime(last.children));
      k := LeftNext(stack, first.stack, k1, p, start, r, end, TotalTime(most));
      WalkConcat(stack, Written(most), Written(last.children));
      WalkConcat(stack, Written(most) + Written(last.children), [r]);
      WalkRecord(second.stack, r);
    }
  }

  lemma NothingLeft(stack: seq<Record>, start: nat, end: nat)
    requires Over(stack, start) && start <= end
    ensures Left(stack, stack, |stack|, start, end, 0) && WalkAll(stack, []) == Walk(stack, [])
  {
  }

  lemma LeftOver(stack: seq<Record>, after: seq<Record>, k: nat, start: nat, end: nat, time: int)
    requires Left(stack, after, k, start, end, time)
    ensures Over(after, end)
  {
  }

  lemma WalkRecord(stack: seq<Record>, r: Record)
    ensures WalkAll(stack, [r]) == Walk(Push(stack, r), [Self(stack, r)])
  {
    assert [r][..0] == [];
    assert [] + [Self(stack, r)] == [Self(stack, r)];
  }

  /** The walk works out the own time of every call of a properly nested profile. */
  lemma WalkIsRight(calls: seq<Call>, start: nat, end: nat)
    requires Timed(calls, start, end)
    ensures WalkAll([], Written(calls)).selfs == OwnTimes(calls)
    ensures Sum(WalkAll([], Written(calls)).selfs) == TotalTime(calls)
  {
    var _ := WalkCalls([], calls, start, end);
    OwnTimesConserve(calls);
  }

  /** A line of the report. */
  datatype Stat = Stat(fn: nat, calls: nat, cum: int, self: int)

  function CallsOf(records: seq<Record>, fn: nat): nat {
    if records == [] then 0
    else CallsOf(records[..|records| - 1], fn) + if records[|records| - 1].fn == fn then 1 else 0
  }

  function CumOf(records: seq<Record>, fn: nat): int {
    if records == [] then 0
    else CumOf(records[..|records| - 1], fn) + if records[|records| - 1].fn == fn then Duration(records[|records| - 1]) else 0
  }

  function SelfOf(records: seq<Record>, selfs: seq<int>, fn: nat): int
    requires |records| == |selfs|
  {
    if records == [] then 0
    else
      var k := |records| - 1;
      SelfOf(records[..k], selfs[..k], fn) + if records[k].fn == fn then selfs[k] else 0
  }

  ghost predicate Distinct(table: seq<Stat>) {
    forall i, j :: 0 <= i < j < |table| ==> table[i].fn != table[j].fn
  }

  ghost predicate Listed(table: seq<Stat>, fn: nat) {
    exists i :: 0 <= i < |table| && table[i].fn == fn
  }

  /** A line that says what the records say of its function. */
  ghost predicate RightLine(s: Stat, records: seq<Record>, selfs: seq<int>)
    requires |records| == |selfs|
  {
    s.calls == CallsOf(records, s.fn) && s.cum == CumOf(records, s.fn) && s.self == SelfOf(records, selfs, s.fn)
  }

  /** One right line for every function that was called. */
  ghost predicate Grouped(table: seq<Stat>, records: seq<Record>, selfs: seq<int>)
    requires |records| == |selfs|
  {
    && Distinct(table)
    && (forall i :: 0 <= i < |table| ==> RightLine(table[i], records, selfs) && table[i].calls > 0)
    && (forall fn :: CallsOf(records, fn) > 0 ==> Listed(table, fn))
  }

  /** The handle the cache remembers is cut to a pointer; it is taken for another only here. */
  predicate FalseHit(records: seq<Record>, k: nat, pointers: nat)
    requires pointers > 0
  {
    0 < k < |records| && records[k].fn == records[k - 1].fn % pointers && records[k].fn != records[k - 1].fn
  }

  ghost predicate NoFalseHit(records: seq<Record>, pointers: nat)
    requires pointers > 0
  {
    forall k :: 0 <= k < |records| ==> !FalseHit(records, k, pointers)
  }

  function Bump(s: Stat, r: Record, self: int): Stat {
    s.(calls := s.calls + 1, cum := s.cum + Duration(r), self := s.self + self)
  }

  lemma SumsSnoc(records: seq<Record>, selfs: seq<int>, r: Record, self: int, fn: nat)
    requires |records| == |selfs|
    ensures CallsOf(records + [r], fn) == CallsOf(records, fn) + if r.fn == fn then 1 else 0
    ensures CumOf(records + [r], fn) == CumOf(records, fn) + if r.fn == fn then Duration(r) else 0
    ensures SelfOf(records + [r], selfs + [self], fn) == SelfOf(records, selfs, fn) + if r.fn == fn then self else 0
  {
    assert (records + [r])[..|records|] == records && (selfs + [self])[..|selfs|] == selfs;
  }

  lemma GroupedBump(table: seq<Stat>, records: seq<Record>, selfs: seq<int>, j: nat, r: Record, self: int)
    requires |records| == |selfs| && Grouped(table, records, selfs) && j < |table| && table[j].fn == r.fn
    ensures Grouped(table[j := Bump(table[j], r, self)], records + [r], selfs + [self])
  {
    var table' := table[j := Bump(table[j], r, self)];
    forall i | 0 <= i < |table| ensures RightLine(table'[i], records + [r], selfs + [self]) && table'[i].calls > 0 {
      SumsSnoc(records, selfs, r, self, table[i].fn);
    }
    forall fn | CallsOf(records + [r], fn) > 0 ensures Listed(table', fn) {
      SumsSnoc(records, selfs, r, self, fn);
      ListedBump(table, j, r, self, fn);
      assert table[j].fn == r.fn;
    }
  }

  lemma ListedBump(table: seq<Stat>, j: nat, r: Record, self: int, fn: nat)
    requires j < |table|
    ensures Listed(table, fn) <==> Listed(table[j := Bump(table[j], r, self)], fn)
  {
    var table' := table[j := Bump(table[j], r, self)];
    if Listed(table, fn) {
      var i :| 0 <= i < |table| && table[i].fn == fn;
      assert table'[i].fn == fn;
    }
    if Listed(table', fn) {
      var i :| 0 <= i < |table| && table'[i].fn == fn;
      assert table[i].fn == fn;
    }
  }

  lemma GroupedNew(table: seq<Stat>, records: seq<Record>, selfs: seq<int>, r: Record, self: int)
    requires |records| == |selfs| && Grouped(table, records, selfs) && !Listed(table, r.fn)
    ensures Grouped(table + [Stat(r.fn, 1, Duration(r), self)], records + [r], selfs + [self])
  {
    var table' := table + [Stat(r.fn, 1, Duration(r), self)];
    NothingOf(records, selfs, r.fn);
    forall i | 0 <= i < |table'| ensures RightLine(table'[i], records + [r], selfs + [self]) && table'[i].calls > 0 {
      SumsSnoc(records, selfs, r, self, table'[i].fn);
      assert i < |table| ==> table'[i] == table[i];
    }
    forall fn | CallsOf(records + [r], fn) > 0 ensures Listed(table', fn) {
      SumsSnoc(records, selfs, r, self, fn);
      if fn == r.fn {
        assert table'[|table|].fn == fn;
      } else {
        var i :| 0 <= i < |table| && table[i].fn == fn;
        assert table'[i].fn == fn;
      }
    }
  }

  lemma {:induction false} NothingOf(records: seq<Record>, selfs: seq<int>, fn: nat)
    requires |records| == |selfs| && CallsOf(records, fn) == 0
    ensures CumOf(records, fn) == 0 && SelfOf(records, selfs, fn) == 0
  {
    if records != [] {
      var k := |records| - 1;
      NothingOf(records[..k], selfs[..k], fn);
    }
  }

  /** A line of a handle too wide for a pointer counts more calls than its function has. */
  ghost predicate Overcounted(table: seq<Stat>, records: seq<Record>, pointers: nat) {
    exists i :: 0 <= i < |table| && table[i].fn >= pointers && table[i].calls > CallsOf(records, table[i].fn)
  }

  /** The table so far; `last` is the line of the record before. */
  ghost predicate Book(table: seq<Stat>, records: seq<Record>, selfs: seq<int>, pointers: nat, last: nat)
    requires pointers > 0
  {
    && |records| == |selfs| && Distinct(table) && |table| <= |records|
    && (records != [] ==> last < |table|)
    && (NoFalseHit(records, pointers) ==>
          Grouped(table, records, selfs) && (records != [] ==> table[last].fn == records[|records| - 1].fn))
    && (!NoFalseHit(records, pointers) ==> Overcounted(table, records, pointers))
  }

  lemma NoFalseHitSnoc(records: seq<Record>, r: Record, pointers: nat)
    requires pointers > 0
    ensures NoFalseHit(records + [r], pointers) <==>
            NoFalseHit(records, pointers) && (records == [] || r.fn != records[|records| - 1].fn % pointers || r.fn == records[|records| - 1].fn)
  {
    var more, n := records + [r], |records|;
    if NoFalseHit(more, pointers) {
      forall k | 0 <= k < n ensures !FalseHit(records, k, pointers) {
        assert !FalseHit(more, k, pointers);
      }
      assert !FalseHit(more, n, pointers);
    } else if NoFalseHit(records, pointers) {
      var k :| 0 <= k < |more| && FalseHit(more, k, pointers);
      assert k < n ==> FalseHit(records, k, pointers);
    }
  }

  /** The record goes to the line of its function. */
  lemma BookBump(table: seq<Stat>, records: seq<Record>, selfs: seq<int>, pointers: nat, last: nat, j: nat, r: Record, self: int)
    requires pointers > 0 && Book(table, records, selfs, pointers, last) && j < |table| && table[j].fn == r.fn
    requires records != [] && records[|records| - 1].fn % pointers == r.fn ==> j == last
    ensures Book(table[j := Bump(table[j], r, self)], records + [r], selfs + [self], pointers, j)
  {
    hide NoFalseHit, Grouped;
    var table' := table[j := Bump(table[j], r, self)];
    NoFalseHitSnoc(records, r, pointers);
    if NoFalseHit(records, pointers) {
      GroupedBump(table, records, selfs, j, r, self);
    } else {
      var i :| 0 <= i < |table| && table[i].fn >= pointers && table[i].calls > CallsOf(records, table[i].fn);
      SumsSnoc(records, selfs, r, self, table[i].fn);
      assert table'[i].fn >= pointers && table'[i].calls > CallsOf(records + [r], table'[i].fn);
    }
  }

  /** The record goes to the line of another function: the cache took a cut handle for its own. */
  lemma BookMistaken(table: seq<Stat>, records: seq<Record>, selfs: seq<int>, pointers: nat, last: nat, r: Record, self: int)
    requires pointers > 0 && Book(table, records, selfs, pointers, last) && records != []
    requires records[|records| - 1].fn % pointers == r.fn && table[last].fn != r.fn
    ensures Book(table[last := Bump(table[last], r, self)], records + [r], selfs + [self], pointers, last)
  {
    hide NoFalseHit;
    var table', h := table[last := Bump(table[last], r, self)], table[last].fn;
    NoFalseHitSnoc(records, r, pointers);
    if NoFalseHit(records, pointers) {
      SumsSnoc(records, selfs, r, self, h);
      assert RightLine(table[last], records, selfs);
      WideHandle(h, pointers);
      assert table'[last].fn >= pointers && table'[last].calls > CallsOf(records + [r], table'[last].fn);
    } else {
      var i :| 0 <= i < |table| && table[i].fn >= pointers && table[i].calls > CallsOf(records, table[i].fn);
      SumsSnoc(records, selfs, r, self, table[i].fn);
      assert table'[i].fn >= pointers && table'[i].calls > CallsOf(records + [r], table'[i].fn);
    }
  }

  lemma WideHandle(h: nat, pointers: nat)
    requires pointers > 0 && h % pointers != h
    ensures h >= pointers
  {
  }

  lemma BookNew(table: seq<Stat>, records: seq<Record>, selfs: seq<int>, pointers: nat, last: nat, r: Record, self: int)
    requires pointers > 0 && Book(table, records, selfs, pointers, last) && !Listed(table, r.fn)
    requires records == [] || records[|records| - 1].fn % pointers != r.fn
    ensures Book(table + [Stat(r.fn, 1, Duration(r), self)], records + [r], selfs + [self], pointers, |table|)
  {
    hide NoFalseHit, Grouped;
    var table' := table + [Stat(r.fn, 1, Duration(r), self)];
    NoFalseHitSnoc(records, r, pointers);
    if NoFalseHit(records, pointers) {
      GroupedNew(table, records, selfs, r, self);
    } else {
      var i :| 0 <= i < |table| && table[i].fn >= pointers && table[i].calls > CallsOf(records, table[i].fn);
      SumsSnoc(records, selfs, r, self, table[i].fn);
      assert table'[i].fn >= pointers && table'[i].calls > CallsOf(records + [r], table'[i].fn);
    }
    forall i, j | 0 <= i < j < |table'| ensures table'[i].fn != table'[j].fn {
      assert table'[i] == table[i];
      assert j < |table| ==> table'[j] == table[j];
    }
  }

  lemma BookEmpty(pointers: nat)
    requires pointers > 0
    ensures Book([], [], [], pointers, 0)
  {
  }

  lemma BookCloses(table: seq<Stat>, records: seq<Record>, selfs: seq<int>, pointers: nat, last: nat)
    requires pointers > 0 && Book(table, records, selfs, pointers, last)
    ensures |records| == |selfs|
    ensures NoFalseHit(records, pointers) <==> Grouped(table, records, selfs)
  {
    hide NoFalseHit;
    if !NoFalseHit(records, pointers) {
      OvercountedIsWrong(table, records, selfs, pointers);
    }
  }

  lemma OvercountedIsWrong(table: seq<Stat>, records: seq<Record>, selfs: seq<int>, pointers: nat)
    requires |records| == |selfs| && Overcounted(table, records, pointers)
    ensures !Grouped(table, records, selfs)
  {
    var i :| 0 <= i < |table| && table[i].fn >= pointers && table[i].calls > CallsOf(records, table[i].fn);
    assert !RightLine(table[i], records, selfs);
  }

  lemma {:induction false} DistinctOnce(table: seq<Stat>, s: Stat)
    requires Distinct(table)
    ensures multiset(table)[s] <= 1
    ensures multiset(table)[s] == 1 ==> Listed(table, s.fn)
  {
    if table != [] {
      var k := |table| - 1;
      DistinctOnce(table[..k], s);
      assert table == table[..k] + [table[k]];
      if multiset(table[..k])[s] == 1 {
        var i :| 0 <= i < k && table[..k][i].fn == s.fn;
        assert table[i].fn == s.fn;
      }
    }
  }

  lemma Twice(table: seq<Stat>, i: nat, j: nat)
    requires i < j < |table| && table[i] == table[j]
    ensures multiset(table)[table[i]] >= 2
  {
    assert table == table[..i] + [table[i]] + table[i + 1..j] + [table[j]] + table[j + 1..];
  }

  /** Order does not matter to a grouped table. */
  lemma GroupedPermuted(a: seq<Stat>, b: seq<Stat>, records: seq<Record>, selfs: seq<int>)
    requires |records| == |selfs| && multiset(a) == multiset(b) && Grouped(a, records, selfs)
    ensures Grouped(b, records, selfs)
  {
    forall i | 0 <= i < |b| ensures RightLine(b[i], records, selfs) && b[i].calls > 0 {
      assert b[i] in multiset(a);
      var k :| 0 <= k < |a| && a[k] == b[i];
    }
    forall i, j | 0 <= i < j < |b| ensures b[i].fn != b[j].fn {
      if b[i].fn == b[j].fn {
        assert RightLine(b[i], records, selfs) && RightLine(b[j], records, selfs);
        Twice(b, i, j);
        DistinctOnce(a, b[i]);
        assert false;
      }
    }
    forall fn | CallsOf(records, fn) > 0 ensures Listed(b, fn) {
      var k :| 0 <= k < |a| && a[k].fn == fn;
      assert a[k] in multiset(b);
      var i :| 0 <= i < |b| && b[i] == a[k];
      assert b[i].fn == fn;
    }
  }

  predicate Descending(table: seq<Stat>) {
    forall i, j :: 0 <= i < j < |table| ==> table[i].cum >= table[j].cum
  }

  /** The frames that the record contains come off the stack, and their time is its children's. */
  method PopChildren(stack: array<Record>, depth: nat, r: Record) returns (depth': nat, children: int)
    requires depth <= stack.Length
    ensures depth' == Popped(stack[..depth], r) && depth' <= depth && children == Times(stack[..depth][depth'..])
  {
    hide Popped, Times;
    ghost var all := stack[..depth];
    depth', children := depth, 0;
    assert all[..depth] == all && all[depth..] == [];
    PopNothing(all, r);
    while depth' > 0 && stack[depth' - 1].enter >= r.enter && stack[depth' - 1].exit <= r.exit
      invariant depth' <= depth && Popped(all[..depth'], r) == Popped(all, r)
      invariant children == Times(all[depth'..])
    {
      PopOne(all, depth', r);
      children := children + Duration(stack[depth' - 1]);
      depth' := depth' - 1;
    }
    PopStops(all, depth', r);
  }

  lemma PopNothing(all: seq<Record>, r: Record)
    ensures Times([]) == 0
  {
  }

  lemma PopOne(all: seq<Record>, depth: nat, r: Record)
    requires 0 < depth <= |all| && Inside(all[depth - 1], r)
    ensures Popped(all[..depth], r) == Popped(all[..depth - 1], r)
    ensures Times(all[depth - 1..]) == Duration(all[depth - 1]) + Times(all[depth..])
  {
    assert all[..depth][..depth - 1] == all[..depth - 1];
    assert all[depth - 1..] == [all[depth - 1]] + all[depth..];
    TimesConcat([all[depth - 1]], all[depth..]);
    TimesOne(all[depth - 1]);
  }

  lemma PopStops(all: seq<Record>, depth: nat, r: Record)
    requires depth <= |all| && (depth == 0 || !Inside(all[depth - 1], r))
    ensures Popped(all[..depth], r) == depth
  {
  }

  /** find_stat: the line of a function, or the number of lines. */
  method FindStat(stats: array<Stat>, n: nat, fn: nat) returns (j: nat)
    requires n <= stats.Length
    ensures j <= n && (j < n ==> stats[j].fn == fn)
    ensures j == n <==> !Listed(stats[..n], fn)
  {
    j := 0;
    while j < n && stats[j].fn != fn
      invariant j <= n && forall k :: 0 <= k < j ==> stats[k].fn != fn
    {
      j := j + 1;
    }
    if j < n {
      assert stats[..n][j].fn == fn;
    }
  }

  /** One record added to the table; the cache is the line of the record before. */
  method Tally(stats: array<Stat>, n: nat, last: nat, lastHandle: nat, pointers: nat, r: Record, self: int,
               ghost records: seq<Record>, ghost selfs: seq<int>)
    returns (n': nat, last': nat)
    requires pointers > 0 && n <= |records| < stats.Length && Book(stats[..n], records, selfs, pointers, last)
    requires records != [] ==> lastHandle == records[|records| - 1].fn % pointers
    requires records == [] ==> n == 0 && lastHandle == 0
    modifies stats
    ensures n' <= |records| + 1 && Book(stats[..n'], records + [r], selfs + [self], pointers, last')
  {
    hide Book, Bump, NoFalseHit;
    n' := n;
    BookBounds(stats[..n], records, selfs, pointers, last);
    ghost var table := stats[..n];
    if n > 0 && lastHandle == r.fn {
      last' := last;
      if stats[last].fn == r.fn {
        BookBump(table, records, selfs, pointers, last, last, r, self);
      } else {
        BookMistaken(table, records, selfs, pointers, last, r, self);
      }
      stats[last] := Bump(stats[last], r, self);
      assert stats[..n] == table[last := Bump(table[last], r, self)];
    } else {
      last' := FindStat(stats, n, r.fn);
      if last' == n {
        BookNew(table, records, selfs, pointers, last, r, self);
        n' := n + 1;
        stats[n] := Stat(r.fn, 1, Duration(r), self);
        assert stats[..n'] == table + [Stat(r.fn, 1, Duration(r), self)];
      } else {
        BookBump(table, records, selfs, pointers, last, last', r, self);
        stats[last'] := Bump(stats[last'], r, self);
        assert stats[..n] == table[last' := Bump(table[last'], r, self)];
      }
    }
  }

  lemma BookBounds(table: seq<Stat>, records: seq<Record>, selfs: seq<int>, pointers: nat, last: nat)
    requires pointers > 0 && Book(table, records, selfs, pointers, last)
    ensures records != [] ==> last < |table|
    ensures records == [] ==> table == []
  {
  }

  /** The insertion sort: stable, by time with callees, greatest first. */
  method SortStats(stats: array<Stat>, n: nat)
    requires n <= stats.Length
    modifies stats
    ensures multiset(stats[..n]) == multiset(old(stats[..n])) && Descending(stats[..n])
  {
    var i: nat := 1;
    while i < n
      invariant 1 <= i && (n > 0 ==> i <= n && Descending(stats[..i]))
      invariant multiset(stats[..n]) == multiset(old(stats[..n]))
    {
      InsertStat(stats, n, i);
      i := i + 1;
    }
  }

  /** One line moves up to its place among those before it. */
  method InsertStat(stats: array<Stat>, n: nat, i: nat)
    requires 0 < i < n <= stats.Length && Descending(stats[..i])
    modifies stats
    ensures multiset(stats[..n]) == multiset(old(stats[..n])) && Descending(stats[..i + 1])
  {
    hide Descending, Below, Shifted, Moved;
    ghost var was := stats[..];
    var tmp := stats[i];
    var j := i;
    NothingShifted(was, i);
    while j > 0 && stats[j - 1].cum < tmp.cum
      invariant j <= i && stats[..] == Shifted(was, i, j) && Below(was[j..i], tmp.cum)
    {
      ShiftOne(was, i, j);
      OneMoreBelow(was, i, j, tmp.cum);
      stats[j] := stats[j - 1];
      j := j - 1;
    }
    ShiftEnds(was, i, j);
    stats[j] := tmp;
    MovedSame(was, i, j, n);
    MovedDescends(was, i, j);
    assert stats[..n] == stats[..][..n] && stats[..i + 1] == stats[..][..i + 1];
    assert was[..n] == old(stats[..n]);
  }

  /** The lines from `j` to `i` have made room, one place down. */
  function Shifted(was: seq<Stat>, i: nat, j: nat): (now: seq<Stat>)
    requires j <= i < |was|
    ensures |now| == |was|
  {
    was[..j + 1] + was[j..i] + was[i + 1..]
  }

  lemma NothingShifted(was: seq<Stat>, i: nat)
    requires i < |was|
    ensures Shifted(was, i, i) == was && Below(was[i..i], was[i].cum)
  {
  }

  lemma ShiftOne(was: seq<Stat>, i: nat, j: nat)
    requires 0 < j <= i < |was|
    ensures Shifted(was, i, j)[j - 1] == was[j - 1]
    ensures Shifted(was, i, j - 1) == Shifted(was, i, j)[j := was[j - 1]]
  {
  }

  lemma ShiftEnds(was: seq<Stat>, i: nat, j: nat)
    requires j <= i < |was|
    ensures Shifted(was, i, j)[j := was[i]] == Moved(was, i, j)
    ensures j > 0 ==> Shifted(was, i, j)[j - 1] == was[j - 1]
  {
  }

  predicate Below(table: seq<Stat>, cum: int) {
    forall k :: 0 <= k < |table| ==> table[k].cum < cum
  }

  lemma OneMoreBelow(was: seq<Stat>, i: nat, j: nat, cum: int)
    requires 0 < j <= i < |was| && Below(was[j..i], cum) && was[j - 1].cum < cum
    ensures Below(was[j - 1..i], cum) && was[j - 1..i] == [was[j - 1]] + was[j..i]
  {
    assert was[j - 1..i] == [was[j - 1]] + was[j..i];
  }

  /** The line at `i` moved up to `j`. */
  function Moved(was: seq<Stat>, i: nat, j: nat): (now: seq<Stat>)
    requires j <= i < |was|
    ensures |now| == |was|
  {
    was[..j] + [was[i]] + was[j..i] + was[i + 1..]
  }

  lemma MovedSame(was: seq<Stat>, i: nat, j: nat, n: nat)
    requires j <= i < n <= |was|
    ensures multiset(Moved(was, i, j)[..n]) == multiset(was[..n])
  {
    assert was[..n] == was[..j] + was[j..i] + [was[i]] + was[i + 1..n];
    assert Moved(was, i, j)[..n] == was[..j] + [was[i]] + was[j..i] + was[i + 1..n];
  }

  lemma MovedDescends(was: seq<Stat>, i: nat, j: nat)
    requires j <= i < |was| && Descending(was[..i])
    requires Below(was[j..i], was[i].cum)
    requires j > 0 ==> was[j - 1].cum >= was[i].cum
    ensures Descending(Moved(was, i, j)[..i + 1])
  {
    assert forall k :: j <= k < i ==> was[k] == was[j..i][k - j];
    var up, first := Moved(was, i, j)[..i + 1], was[..i];
    forall a, b | 0 <= a < b < |up| ensures up[a].cum >= up[b].cum {
      DescendsAt(first, if a < j then a else a - 1, if b < j then b else b - 1);
      if a < j == b {
        DescendsAt(first, a, j - 1);
      }
    }
  }

  lemma DescendsAt(table: seq<Stat>, a: int, b: int)
    requires Descending(table)
    ensures 0 <= a <= b < |table| ==> table[a].cum >= table[b].cum
  {
  }

  /**
   The report: the self times of the walk, and one right line per function in descending order, exactly when
   the cache never takes a handle cut to a pointer for another.
   */
  method Report(records: seq<Record>, pointers: nat) returns (table: seq<Stat>, selfs: seq<int>)
    requires pointers > 0
    ensures selfs == WalkAll([], records).selfs && |selfs| == |records|
    ensures forall a, b :: 0 <= a < b < |table| ==> table[a].cum >= table[b].cum
    ensures Grouped(table, records, selfs) <==> NoFalseHit(records, pointers)
    ensures NoFalseHit(records, pointers) <==>
            forall k :: 0 < k < |records| ==> records[k].fn == records[k - 1].fn || records[k].fn != records[k - 1].fn % pointers
  {
    hide Book, WalkAll, NoFalseHit, Grouped, Descending;
    var n := |records|;
    var stats := new Stat[n + 1](_ => Stat(0, 0, 0, 0));
    var stack := new Record[n + 1](_ => Record(0, 0, 0));
    var depth: nat, count: nat, last: nat, lastHandle: nat := 0, 0, 0, 0;
    selfs := [];
    BookEmpty(pointers);
    NothingWalked();
    assert stats[..0] == [] && stack[..0] == [] && records[..0] == [];
    for k := 0 to n
      invariant depth <= k && count <= k
      invariant WalkAll([], records[..k]) == Walk(stack[..depth], selfs)
      invariant Book(stats[..count], records[..k], selfs, pointers, last)
      invariant if k > 0 then lastHandle == records[k - 1].fn % pointers else lastHandle == 0 && count == 0
    {
      assert records[..k + 1] == records[..k] + [records[k]];
      var self;
      depth, self := WalkRecordInPlace(stack, depth, records[k], records[..k], selfs);
      count, last := Tally(stats, count, last, lastHandle, pointers, records[k], self, records[..k], selfs);
      lastHandle := records[k].fn % pointers;
      selfs := selfs + [self];
    }
    assert records[..n] == records;
    BookCloses(stats[..count], records, selfs, pointers, last);
    ghost var unsorted := stats[..count];
    SortStats(stats, count);
    table := stats[..count];
    GroupedEither(unsorted, table, records, selfs);
    NoFalseHitIs(records, pointers);
    Descends(table);
  }

  lemma NoFalseHitIs(records: seq<Record>, pointers: nat)
    requires pointers > 0
    ensures NoFalseHit(records, pointers) <==>
            forall k :: 0 < k < |records| ==> records[k].fn == records[k - 1].fn || records[k].fn != records[k - 1].fn % pointers
  {
    if forall k :: 0 < k < |records| ==> records[k].fn == records[k - 1].fn || records[k].fn != records[k - 1].fn % pointers {
    } else {
      var k :| 0 < k < |records| && records[k].fn != records[k - 1].fn && records[k].fn == records[k - 1].fn % pointers;
      assert FalseHit(records, k, pointers);
    }
  }

  lemma Descends(table: seq<Stat>)
    requires Descending(table)
    ensures forall a, b :: 0 <= a < b < |table| ==> table[a].cum >= table[b].cum
  {
    forall a, b | 0 <= a < b < |table| ensures table[a].cum >= table[b].cum {
      DescendsAt(table, a, b);
    }
  }

  /** All the calls of a function in the profile, and their time and their own time. */
  function CountIn(calls: seq<Call>, fn: nat): nat {
    if calls == [] then 0
    else
      var last := calls[|calls| - 1];
      CountIn(calls[..|calls| - 1], fn) + CountIn(last.children, fn) + if last.record.fn == fn then 1 else 0
  }

  function TimeIn(calls: seq<Call>, fn: nat): int {
    if calls == [] then 0
    else
      var last := calls[|calls| - 1];
      TimeIn(calls[..|calls| - 1], fn) + TimeIn(last.children, fn) + if last.record.fn == fn then Duration(last.record) else 0
  }

  function OwnTimeIn(calls: seq<Call>, fn: nat): int {
    if calls == [] then 0
    else
      var last := calls[|calls| - 1];
      OwnTimeIn(calls[..|calls| - 1], fn) + OwnTimeIn(last.children, fn) + if last.record.fn == fn then OwnTime(last) else 0
  }

  lemma {:induction false} SumsConcat(a: seq<Record>, x: seq<int>, b: seq<Record>, y: seq<int>, fn: nat)
    requires |a| == |x| && |b| == |y|
    ensures CallsOf(a + b, fn) == CallsOf(a, fn) + CallsOf(b, fn)
    ensures CumOf(a + b, fn) == CumOf(a, fn) + CumOf(b, fn)
    ensures SelfOf(a + b, x + y, fn) == SelfOf(a, x, fn) + SelfOf(b, y, fn)
  {
    hide CallsOf, CumOf, SelfOf;
    NothingCalled(fn);
    if b == [] {
      assert a + b == a && x + y == x;
    } else {
      var k := |b| - 1;
      SumsConcat(a, x, b[..k], y[..k], fn);
      SumsSnoc(a + b[..k], x + y[..k], b[k], y[k], fn);
      SumsSnoc(b[..k], y[..k], b[k], y[k], fn);
      assert a + b[..k] + [b[k]] == a + b && x + y[..k] + [y[k]] == x + y && b[..k] + [b[k]] == b && y[..k] + [y[k]] == y;
    }
  }

  /** The sums over the records are the sums over the calls. */
  lemma {:induction false} SumsOfCalls(calls: seq<Call>, fn: nat)
    ensures |Written(calls)| == |OwnTimes(calls)|
    ensures CallsOf(Written(calls), fn) == CountIn(calls, fn) && CumOf(Written(calls), fn) == TimeIn(calls, fn)
    ensures SelfOf(Written(calls), OwnTimes(calls), fn) == OwnTimeIn(calls, fn)
  {
    hide CallsOf, CumOf, SelfOf;
    SameCount(calls);
    if calls == [] {
      NothingCalled(fn);
    } else {
      var most, last := calls[..|calls| - 1], calls[|calls| - 1];
      SameCount(most);
      SameCount(last.children);
      SumsOfCalls(most, fn);
      SumsOfCalls(last.children, fn);
      SumsConcat(Written(most), OwnTimes(most), Written(last.children), OwnTimes(last.children), fn);
      SumsSnoc(Written(most) + Written(last.children), OwnTimes(most) + OwnTimes(last.children), last.record, OwnTime(last), fn);
    }
  }

  lemma NothingCalled(fn: nat)
    ensures CallsOf([], fn) == 0 && CumOf([], fn) == 0 && SelfOf([], [], fn) == 0
  {
  }

  function SelfTotal(table: seq<Stat>): int { if table == [] then 0 else SelfTotal(table[..|table| - 1]) + table[|table| - 1].self }

  /** The lines of a table, with the self times that a shorter profile gives them. */
  function Restated(table: seq<Stat>, records: seq<Record>, selfs: seq<int>): (t: seq<Stat>)
    requires |records| == |selfs|
    ensures |t| == |table|
  {
    seq(|table|, i requires 0 <= i < |table| => table[i].(self := SelfOf(records, selfs, table[i].fn)))
  }

  /** One more record changes the line of its function and no other. */
  lemma {:induction false} RestatedSnoc(table: seq<Stat>, records: seq<Record>, selfs: seq<int>, r: Record, self: int)
    requires |records| == |selfs| && Distinct(table)
    ensures SelfTotal(Restated(table, records + [r], selfs + [self])) ==
            SelfTotal(Restated(table, records, selfs)) + if Listed(table, r.fn) then self else 0
  {
    if table != [] {
      var n := |table| - 1;
      var front := table[..n];
      RestatedSnoc(front, records, selfs, r, self);
      SumsSnoc(records, selfs, r, self, table[n].fn);
      assert Restated(table, records, selfs)[..n] == Restated(front, records, selfs);
      assert Restated(table, records + [r], selfs + [self])[..n] == Restated(front, records + [r], selfs + [self]);
      ListedFront(table, r.fn);
    }
  }

  lemma ListedFront(table: seq<Stat>, fn: nat)
    requires table != []
    ensures Listed(table, fn) <==> Listed(table[..|table| - 1], fn) || table[|table| - 1].fn == fn
    ensures Distinct(table) && table[|table| - 1].fn == fn ==> !Listed(table[..|table| - 1], fn)
  {
    var front := table[..|table| - 1];
    if Listed(table, fn) {
      var i :| 0 <= i < |table| && table[i].fn == fn;
      assert i < |front| ==> front[i].fn == fn;
    }
    if Listed(front, fn) {
      var i :| 0 <= i < |front| && front[i].fn == fn;
      assert table[i].fn == fn;
    }
  }

  lemma {:induction false} RestatedTotal(table: seq<Stat>, records: seq<Record>, selfs: seq<int>)
    requires |records| == |selfs| && Distinct(table) && forall fn :: CallsOf(records, fn) > 0 ==> Listed(table, fn)
    ensures SelfTotal(Restated(table, records, selfs)) == Sum(selfs)
  {
    if records == [] {
      NothingRestated(table);
    } else {
      var k := |records| - 1;
      assert records[..k] + [records[k]] == records && selfs[..k] + [selfs[k]] == selfs;
      forall fn | CallsOf(records[..k], fn) > 0 ensures Listed(table, fn) {
        SumsSnoc(records[..k], selfs[..k], records[k], selfs[k], fn);
      }
      SumsSnoc(records[..k], selfs[..k], records[k], selfs[k], records[k].fn);
      RestatedTotal(table, records[..k], selfs[..k]);
      RestatedSnoc(table, records[..k], selfs[..k], records[k], selfs[k]);
    }
  }

  lemma {:induction false} NothingRestated(table: seq<Stat>)
    ensures SelfTotal(Restated(table, [], [])) == 0
  {
    if table != [] {
      NothingRestated(table[..|table| - 1]);
      NothingCalled(table[|table| - 1].fn);
      assert Restated(table, [], [])[..|table| - 1] == Restated(table[..|table| - 1], [], []);
    }
  }

  /** The self times of a right table are all the self times there are. */
  lemma GroupedTotal(table: seq<Stat>, records: seq<Record>, selfs: seq<int>)
    requires |records| == |selfs| && Grouped(table, records, selfs)
    ensures SelfTotal(table) == Sum(selfs)
  {
    RestatedTotal(table, records, selfs);
    assert Restated(table, records, selfs) == table;
  }

  /**
   The report on a properly nested profile: unless the cache takes one function for another, there is one line for each
   function that was called, with its calls, their time and their own time, and the own times in the table add up to the time
   of the outermost calls.
   */
  method ReportCalls(calls: seq<Call>, start: nat, end: nat, pointers: nat) returns (table: seq<Stat>)
    requires pointers > 0 && Timed(calls, start, end)
    ensures forall a, b :: 0 <= a < b < |table| ==> table[a].cum >= table[b].cum
    ensures NoFalseHit(Written(calls), pointers) ==>
              && Distinct(table) && (forall fn :: Listed(table, fn) <==> CountIn(calls, fn) > 0)
              && (forall i :: 0 <= i < |table| ==>
                    var s := table[i];
                    s.calls == CountIn(calls, s.fn) && s.cum == TimeIn(calls, s.fn) && s.self == OwnTimeIn(calls, s.fn))
              && SelfTotal(table) == TotalTime(calls)
  {
    hide WalkAll, NoFalseHit, Descending, Timed, CallsOf, CumOf, SelfOf;
    var selfs;
    table, selfs := Report(Written(calls), pointers);
    WalkIsRight(calls, start, end);
    if NoFalseHit(Written(calls), pointers) {
      GroupedTotal(table, Written(calls), selfs);
      forall fn ensures CallsOf(Written(calls), fn) == CountIn(calls, fn) && CumOf(Written(calls), fn) == TimeIn(calls, fn) &&
                        SelfOf(Written(calls), selfs, fn) == OwnTimeIn(calls, fn) {
        SumsOfCalls(calls, fn);
      }
      forall fn ensures Listed(table, fn) <==> CountIn(calls, fn) > 0 {
        if Listed(table, fn) {
          var i :| 0 <= i < |table| && table[i].fn == fn;
          assert RightLine(table[i], Written(calls), selfs);
        }
      }
    }
  }

  /** A call from 0 to 10 that makes two, from 2 to 5 and from 6 to 7: its own time is 6. */
  lemma OneCallOfTwo()
    ensures var f, g, main := Record(2, 2, 5), Record(2, 6, 7), Record(1, 0, 10);
            var calls := [Call(main, [Call(f, []), Call(g, [])])];
            && Timed(calls, 0, 10) && Written(calls) == [f, g, main] && OwnTimes(calls) == [3, 1, 6]
            && CountIn(calls, 1) == 1 && TimeIn(calls, 1) == 10 && OwnTimeIn(calls, 1) == 6
            && CountIn(calls, 2) == 2 && TimeIn(calls, 2) == 4 && OwnTimeIn(calls, 2) == 4
  {
    var f, g, main := Record(2, 2, 5), Record(2, 6, 7), Record(1, 0, 10);
    var a, b := Call(f, []), Call(g, []);
    OneMoreCall([], a, 1, 0, 6);
    OneMoreCall([], a, 2, 0, 6);
    OneMoreCall([a], b, 1, 0, 10);
    OneMoreCall([a], b, 2, 0, 10);
    assert [] + [a] == [a] && [a] + [b] == [a, b];
    assert Timed([], 0, 2) && Timed([], 2, 5) && Timed([], 6, 7) && Timed([], 0, 0);
    OneMoreCall([], Call(main, [a, b]), 1, 0, 10);
    OneMoreCall([], Call(main, [a, b]), 2, 0, 10);
    assert [] + [Call(main, [a, b])] == [Call(main, [a, b])];
  }

  lemma OneMoreCall(calls: seq<Call>, c: Call, fn: nat, start: nat, end: nat)
    ensures var all := calls + [c];
            && (Timed(all, start, end) <==>
                  Timed(calls, start, c.record.enter) && Timed(c.children, c.record.enter, c.record.exit) && c.record.enter <= c.record.exit <= end)
            && Written(all) == Written(calls) + Written(c.children) + [c.record]
            && OwnTimes(all) == OwnTimes(calls) + OwnTimes(c.children) + [OwnTime(c)]
            && TotalTime(all) == TotalTime(calls) + Duration(c.record)
            && CountIn(all, fn) == CountIn(calls, fn) + CountIn(c.children, fn) + (if c.record.fn == fn then 1 else 0)
            && TimeIn(all, fn) == TimeIn(calls, fn) + TimeIn(c.children, fn) + (if c.record.fn == fn then Duration(c.record) else 0)
            && OwnTimeIn(all, fn) == OwnTimeIn(calls, fn) + OwnTimeIn(c.children, fn) + (if c.record.fn == fn then OwnTime(c) else 0)
  {
    assert (calls + [c])[..|calls|] == calls;
  }

  lemma NothingWalked()
    ensures WalkAll([], []) == Walk([], [])
  {
  }

  lemma GroupedEither(a: seq<Stat>, b: seq<Stat>, records: seq<Record>, selfs: seq<int>)
    requires |records| == |selfs| && multiset(a) == multiset(b)
    ensures Grouped(a, records, selfs) <==> Grouped(b, records, selfs)
  {
    hide Grouped;
    if Grouped(a, records, selfs) {
      GroupedPermuted(a, b, records, selfs);
    }
    if Grouped(b, records, selfs) {
      GroupedPermuted(b, a, records, selfs);
    }
  }

  /** One turn of the walk: the children come off, the record goes on. */
  method WalkRecordInPlace(stack: array<Record>, depth: nat, r: Record, ghost records: seq<Record>, ghost selfs: seq<int>)
    returns (depth': nat, self: int)
    requires depth < stack.Length && WalkAll([], records) == Walk(stack[..depth], selfs)
    modifies stack
    ensures depth' <= depth + 1 && depth' <= stack.Length
    ensures WalkAll([], records + [r]) == Walk(stack[..depth'], selfs + [self])
  {
    hide WalkAll, Self, Popped;
    ghost var frames := stack[..depth];
    var children;
    depth', children := PopChildren(stack, depth, r);
    var cum := Duration(r);
    self := if cum > children then cum - children else 0;
    SelfIs(frames, r, children);
    WalkSnoc(records, r);
    stack[depth'] := r;
    depth' := depth' + 1;
    assert stack[..depth'] == frames[..depth' - 1] + [r];
  }

  lemma WalkSnoc(records: seq<Record>, r: Record)
    ensures var before := WalkAll([], records);
            WalkAll([], records + [r]) == Walk(Push(before.stack, r), before.selfs + [Self(before.stack, r)])
  {
    assert (records + [r])[..|records|] == records;
  }

  lemma SelfIs(stack: seq<Record>, r: Record, children: int)
    requires children == Times(stack[Popped(stack, r)..])
    ensures Self(stack, r) == if Duration(r) > children then Duration(r) - children else 0
  {
  }
}
