/**
 What a POP3 session that meets no error has done when it quits: every size counted
 once, and every message that was wanted delivered once.
 */
module Pop3Accounts {
  import opened Bytes
  import opened Pop3
  import opened Pop3Runs
  import opened Pop3Delivery

  function Size(box: Mailbox, n: int): nat
    requires 1 <= n <= |box.sizes|
  {
    box.sizes[n - 1]
  }

  function Total(sizes: seq<nat>): nat
  {
    if sizes == [] then 0 else sizes[0] + Total(sizes[1..])
  }

  ghost predicate SizesSet(box: Mailbox, s: Pop)
  {
    && s.count == |box.sizes| && |s.msg| == s.count + 1
    && forall n :: 1 <= n <= s.count ==> s.msg[n].size == Size(box, n)
  }

  lemma {:induction false} SumSplit(msg: seq<MsgInfo>, lo: nat, mid: nat, hi: nat)
    requires lo <= mid <= hi <= |msg|
    ensures SumSizes(msg, lo, hi) == SumSizes(msg, lo, mid) + SumSizes(msg, mid, hi)
    decreases mid - lo
  {
    if lo < mid {
      SumSplit(msg, lo + 1, mid, hi);
    }
  }

  lemma {:induction false} SumSame(a: seq<MsgInfo>, b: seq<MsgInfo>, lo: nat, hi: nat)
    requires lo <= hi <= |a| && hi <= |b|
    requires forall n :: lo <= n < hi ==> a[n].size == b[n].size
    ensures SumSizes(a, lo, hi) == SumSizes(b, lo, hi)
    decreases hi - lo
  {
    if lo < hi {
      SumSame(a, b, lo + 1, hi);
    }
  }

  lemma {:induction false} SumIsTotal(box: Mailbox, s: Pop, n: nat)
    requires SizesSet(box, s) && 1 <= n <= s.count + 1
    ensures SumSizes(s.msg, n, s.count + 1) == Total(box.sizes[n - 1..])
    decreases s.count + 1 - n
  {
    if n <= s.count {
      assert s.msg[n].size == Size(box, n);
      assert box.sizes[n - 1..][1..] == box.sizes[n..];
      SumIsTotal(box, s, n + 1);
    }
  }

  function Min(a: int, b: int): int
  {
    if a < b then a else b
  }

  /** The first k lines of the size listing have been read. */
  ghost predicate SizedTo(box: Mailbox, s: Pop, k: nat)
  {
    && s.count == |box.sizes| && |s.msg| == s.count + 1 && k <= s.count && 1 <= s.cur <= s.count
    && (forall n :: 1 <= n <= k ==> s.msg[n].size == Size(box, n))
    && s.totalBytes == SumSizes(s.msg, 1, Min(k + 1, s.cur))
  }

  lemma SizeOneMore(box: Mailbox, s: Pop, k: nat)
    requires ValidMailbox(box) && SizedTo(box, s, k) && k < s.count
    ensures SizedTo(box, RecvSizeLine(s, k + 1, Size(box, k + 1)), k + 1)
  {
    var r := RecvSizeLine(s, k + 1, Size(box, k + 1));
    GintInRange(Size(box, k + 1));
    SumSame(s.msg, r.msg, 1, Min(k + 1, s.cur));
    if k + 1 < s.cur {
      SumSplit(r.msg, 1, k + 1, k + 2);
    }
  }

  lemma {:induction false} SizeLinesRead(box: Mailbox, s: Pop, k: nat)
    requires ValidMailbox(box) && SizedTo(box, s, k)
    ensures var (r, good) := RecvSizeLines(s, Sizes(box)[k..]); good && SizedTo(box, r, s.count) && r.cur == s.cur
    decreases s.count - k
  {
    var lines := Sizes(box)[k..];
    if k < s.count {
      assert lines[0] == SizeLine(k + 1, Size(box, k + 1)) && lines[1..] == Sizes(box)[k + 1..];
      SizeOneMore(box, s, k);
      SizeLinesRead(box, RecvSizeLine(s, k + 1, Size(box, k + 1)), k + 1);
    }
  }

  /** No error reply, except that UIDL and LAST may be unknown commands. */
  predicate Clean(s: Pop, e: Event)
  {
    e.Status? ==> e.reply == Ok || (e.reply == ErrOther && s.phase in {GetRangeUidl, GetRangeLast})
  }

  /** The listings are those of the mailbox; UIDL may be unsupported. */
  predicate Lists(box: Mailbox, s: Pop, e: Event)
  {
    match e
    case Status(reply, body) => s.phase == GetRangeStat && reply == Ok ==> |body| >= 2 && body[0] == |box.ids|
    case UidlListing(lines, whole) => whole && lines == IdLines(box)
    case SizeListing(lines, whole) => whole && lines == Sizes(box)
    case Message(_, _, _) => true
  }

  ghost predicate IsCleanSession(box: Mailbox, s: Pop, es: seq<Event>)
    requires Shaped(s)
    decreases |es|
  {
    IsRun(s, es) && (es != [] ==>
      && Lists(box, s, es[0]) && Clean(s, es[0])
      && (StepKeepsShape(s, es[0]); IsCleanSession(box, Step(s, es[0]), es[1..])))
  }

  /** How much has been counted, phase by phase. */
  ghost predicate Accounted(box: Mailbox, s: Pop)
  {
    Shaped(s) && (!s.failed ==>
      match s.phase
      case GetRangeStat => s.totalBytes == 0 && List !in s.sent
      case Retr => SizesSet(box, s) && s.totalBytes == SumSizes(s.msg, 1, s.cur)
      case RetrRecv => SizesSet(box, s) && s.totalBytes == SumSizes(s.msg, 1, s.cur)
      case Delete => SizesSet(box, s) && s.totalBytes == SumSizes(s.msg, 1, s.cur + 1)
      case GetSizeList => s.totalBytes == 0 && s.count == |box.sizes|
      case GetSizeListRecv => s.totalBytes == 0 && s.count == |box.sizes|
      case GetRangeUidl => s.totalBytes == 0 && s.count == |box.sizes| && List !in s.sent
      case GetRangeUidlRecv => s.totalBytes == 0 && s.count == |box.sizes| && List !in s.sent
      case GetRangeLast => s.totalBytes == 0 && s.count == |box.sizes| && List !in s.sent
      case _ => List in s.sent ==> SizesSet(box, s) && s.totalBytes == SumSizes(s.msg, 1, s.count + 1))
  }

  lemma LookupNextAccounted(box: Mailbox, s: Pop)
    requires SizesSet(box, s) && 1 <= s.cur <= s.count && !s.failed
    requires s.totalBytes == SumSizes(s.msg, 1, s.cur)
    ensures Accounted(box, LookupNext(s))
  {
    LookupNextStops(s);
    LookupNextAccounts(s);
    var r := LookupNext(s);
    SumSplit(s.msg, 1, s.cur, if r.phase == Retr then r.cur else r.cur + 1);
  }

  lemma AdvanceAccounted(box: Mailbox, s: Pop, before: Pop)
    requires SizesSet(box, before) && 1 <= s.cur <= s.count && !s.failed
    requires |s.msg| == |before.msg| && s.count == before.count
    requires forall n :: 1 <= n <= s.count ==> s.msg[n].size == before.msg[n].size
    requires s.totalBytes == SumSizes(before.msg, 1, s.cur + 1)
    ensures Accounted(box, Advance(s)) && SizesSet(box, s) && s.totalBytes == SumSizes(s.msg, 1, s.cur + 1)
  {
    SumSame(before.msg, s.msg, 1, s.cur + 1);
    if s.cur < s.count {
      LookupNextAccounted(box, s.(cur := s.cur + 1));
    }
  }

  lemma StatusAccounted(box: Mailbox, s: Pop, reply: Reply, body: seq<int>)
    requires ValidMailbox(box) && Accounted(box, s) && Enabled(s, Status(reply, body))
    requires Lists(box, s, Status(reply, body)) && Clean(s, Status(reply, body))
    ensures Accounted(box, RecvStatus(s, reply, body))
  {
    StatusKeepsShape(s, reply, body);
    if s.phase == Delete {
      AdvanceAccounted(box, MarkDeleted(s), s);
    }
  }

  lemma StepAccounted(box: Mailbox, s: Pop, e: Event)
    requires ValidMailbox(box) && Accounted(box, s) && Enabled(s, e) && Lists(box, s, e) && Clean(s, e)
    ensures Accounted(box, Step(s, e))
  {
    StepKeepsShape(s, e);
    match e
    case Status(reply, body) => StatusAccounted(box, s, reply, body);
    case UidlListing(lines, whole) => UidlLinesKeepShape(s, lines);
    case SizeListing(lines, whole) =>
      assert Sizes(box)[0..] == Sizes(box);
      SizeLinesKeepShape(s, lines);
      SizeLinesRead(box, s, 0);
      LookupNextAccounted(box, RecvSizeLines(s, lines).0);
    case Message(stored, drop, connected) =>
      if stored && drop != DropError {
        SumSplit(s.msg, 1, s.cur, s.cur + 1);
        AdvanceAccounted(box, Accept(s, drop), s);
      }
  }

  lemma {:induction false} RunAccounted(box: Mailbox, s: Pop, es: seq<Event>)
    requires ValidMailbox(box) && Accounted(box, s) && IsCleanSession(box, s, es)
    ensures Accounted(box, Run(s, es))
    decreases |es|
  {
    if es != [] {
      StepAccounted(box, s, es[0]);
      RunAccounted(box, Step(s, es[0]), es[1..]);
    }
  }

  /** Once LIST has run, a session that met no error quits with every listed size counted exactly once. */
  lemma TotalIsSumOfSizes(box: Mailbox, prefs: Prefs, now: int, table: map<string, int>, es: seq<Event>)
    requires ValidMailbox(box) && IsCleanSession(box, Start(prefs, now, table), es)
    requires var r := Run(Start(prefs, now, table), es);
      !r.failed && r.phase in {Logout, Done, Aborted} && List in r.sent
    ensures Run(Start(prefs, now, table), es).totalBytes == Total(box.sizes)
  {
    var s := Start(prefs, now, table);
    RunAccounted(box, s, es);
    SumIsTotal(box, Run(s, es), 1);
    assert box.sizes[0..] == box.sizes;
  }

  // ---- Which messages are delivered ----

  /** A message to be delivered: not on file, not empty, within the size limit. */
  predicate Wanted(box: Mailbox, s: Pop, n: int)
    requires ValidBoxIndex(box, n)
  {
    && !Known(s, Id(box, n)) && Size(box, n) != 0
    && !(s.prefs.limitOn && s.prefs.limit > 0 && Size(box, n) > s.prefs.limit * 1024)
  }

  predicate ValidBoxIndex(box: Mailbox, n: int)
  {
    1 <= n <= |box.ids| == |box.sizes|
  }

  /** Every message below k has been delivered if wanted and left otherwise; none from k on has been delivered. */
  ghost predicate DecidedTo(box: Mailbox, s: Pop, k: int)
  {
    && s.count == |box.ids| == |box.sizes| && s.uidlValid
    && (forall n | 1 <= n < k && ValidBoxIndex(box, n) :: n in s.dropped <==> Wanted(box, s, n))
    && (forall n :: n in s.dropped ==> n < k)
  }

  predicate ToFetch(s: Pop)
  {
    0 <= s.cur < |s.msg| && !Skipped(s, s.msg[s.cur])
  }

  ghost predicate Decided(box: Mailbox, s: Pop)
  {
    !s.failed ==>
      match s.phase
      case GetSizeList => DecidedTo(box, s, s.cur)
      case GetSizeListRecv => DecidedTo(box, s, s.cur)
      case Retr => DecidedTo(box, s, s.cur) && ToFetch(s)
      case RetrRecv => DecidedTo(box, s, s.cur) && ToFetch(s)
      case Delete => DecidedTo(box, s, s.cur + 1)
      case Logout => DecidedTo(box, s, s.count + 1)
      case Done => DecidedTo(box, s, s.count + 1)
      case Aborted => DecidedTo(box, s, s.count + 1)
      case _ => true
  }

  lemma LookupNextDecided(box: Mailbox, s: Pop)
    requires Core(box, s) && SizesSet(box, s) && DecidedTo(box, s, s.cur)
    ensures Decided(box, LookupNext(s))
  {
    hide LookupNext;
    LookupNextStops(s);
    var r := LookupNext(s);
    var k := if r.phase == Retr then r.cur else r.cur + 1;
    forall n | 1 <= n < k && ValidBoxIndex(box, n) ensures n in r.dropped <==> Wanted(box, r, n) {
      assert Kept(box, s, n) && s.msg[n].size == Size(box, n);
    }
  }

  lemma AdvanceDecided(box: Mailbox, s: Pop)
    requires Core(box, s) && SizesSet(box, s) && DecidedTo(box, s, s.cur + 1)
    ensures Decided(box, Advance(s))
  {
    if s.cur < s.count {
      CoreOf(box, s, s.(cur := s.cur + 1));
      LookupNextDecided(box, s.(cur := s.cur + 1));
    }
  }

  /** What the two other invariants say while messages are processed. */
  lemma CoreFromRemembers(box: Mailbox, s: Pop)
    requires Remembers(box, s) && Processing(s.phase) && !s.failed
    ensures Core(box, s)
  {
  }

  lemma StatusDecided(box: Mailbox, s: Pop, reply: Reply, body: seq<int>)
    requires ValidMailbox(box) && Remembers(box, s) && Accounted(box, s) && Decided(box, s)
    requires var e := Status(reply, body); Enabled(s, e) && Answers(box, s, e) && Clean(s, e)
    ensures Decided(box, RecvStatus(s, reply, body))
  {
    if s.phase == Delete {
      var s' := MarkDeleted(s);
      CoreFromRemembers(box, s);
      forall n | 1 <= n <= s.count ensures Kept(box, s', n) {
        assert Kept(box, s, n);
      }
      AdvanceDecided(box, s');
    }
  }

  lemma UidlDecided(box: Mailbox, s: Pop)
    requires ValidMailbox(box) && Remembers(box, s) && Enabled(s, UidlListing(IdLines(box), true))
    ensures Decided(box, RecvUidl(s, IdLines(box), true))
  {
    assert IdLines(box)[0..] == IdLines(box);
    UidlLinesRead(box, s, 0);
    var r := RecvUidl(s, IdLines(box), true);
    assert FirstFresh(box, r, |box.ids|);
    forall n | 1 <= n <= r.count && (r.newMsg ==> n < r.cur) && ValidBoxIndex(box, n) ensures !Wanted(box, r, n) {
      assert !Fresh(r, Id(box, n));
    }
  }

  lemma ListDecided(box: Mailbox, s: Pop)
    requires ValidMailbox(box) && Remembers(box, s) && Accounted(box, s) && Decided(box, s)
    requires Enabled(s, SizeListing(Sizes(box), true))
    ensures Decided(box, RecvList(s, Sizes(box), true))
  {
    assert Sizes(box)[0..] == Sizes(box);
    SizeLinesKeepShape(s, Sizes(box));
    SizeLinesRead(box, s, 0);
    var s' := RecvSizeLines(s, Sizes(box)).0;
    CoreFromRemembers(box, s);
    forall n | 1 <= n <= s.count ensures Kept(box, s', n) {
      assert Kept(box, s, n);
    }
    LookupNextDecided(box, s');
  }

  lemma RetrDecided(box: Mailbox, s: Pop, stored: bool, drop: Drop, connected: bool)
    requires ValidMailbox(box) && Remembers(box, s) && Accounted(box, s) && Decided(box, s)
    requires Enabled(s, Message(stored, drop, connected))
    ensures Decided(box, RecvRetr(s, stored, drop, connected))
  {
    if stored && drop != DropError {
      var s' := Accept(s, drop);
      CoreFromRemembers(box, s);
      assert Kept(box, s, s.cur);
      forall n ensures n in s'.dropped <==> n in s.dropped || n == s.cur {
      }
      forall n | 1 <= n <= s.count ensures Kept(box, s', n) {
        assert Kept(box, s, n);
      }
      AdvanceDecided(box, s');
    }
  }

  lemma StepDecided(box: Mailbox, s: Pop, e: Event)
    requires ValidMailbox(box) && Remembers(box, s) && Accounted(box, s) && Decided(box, s)
    requires Enabled(s, e) && Answers(box, s, e) && Clean(s, e)
    ensures Decided(box, Step(s, e))
  {
    match e
    case Status(reply, body) => StatusDecided(box, s, reply, body);
    case UidlListing(lines, whole) => UidlDecided(box, s);
    case SizeListing(lines, whole) => ListDecided(box, s);
    case Message(stored, drop, connected) => RetrDecided(box, s, stored, drop, connected);
  }

  lemma {:induction false} RunDecided(box: Mailbox, s: Pop, es: seq<Event>)
    requires ValidMailbox(box) && Remembers(box, s) && Accounted(box, s) && Decided(box, s)
    requires IsSession(box, s, es) && IsCleanSession(box, s, es)
    ensures Decided(box, Run(s, es))
    decreases |es|
  {
    if es != [] {
      StepRemembers(box, s, es[0]);
      StepAccounted(box, s, es[0]);
      StepDecided(box, s, es[0]);
      RunDecided(box, Step(s, es[0]), es[1..]);
    }
  }

  /**
   Nothing is lost and nothing is fetched again: a session that met no error and left
   known mail alone has delivered exactly the messages that are not on file, not empty
   and within the size limit.
   */
  lemma DeliversExactlyTheWanted(box: Mailbox, prefs: Prefs, now: int, table: map<string, int>, es: seq<Event>)
    requires ValidMailbox(box) && !prefs.getall && Durable(now)
    requires var s := Start(prefs, now, table); IsSession(box, s, es) && IsCleanSession(box, s, es)
    requires var r := Run(Start(prefs, now, table), es); !r.failed && r.phase in {Logout, Done}
    ensures var r := Run(Start(prefs, now, table), es);
      forall n | ValidBoxIndex(box, n) :: n in r.dropped <==> Wanted(box, r, n)
  {
    RunDecided(box, Start(prefs, now, table), es);
  }
}
