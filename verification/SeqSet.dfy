/** IMAP sequence sets (section 9 of RFC 3501): compressing a list of UIDs into bounded range lists. */
module SeqSet {
  import opened Bytes
  import opened Decimal

  const IMAP_CMD_LIMIT: nat := 1000
  const TWO32: nat := 0x1_0000_0000
  const COMMA: byte := 44
  const COLON: byte := 58

  datatype Range = Range(first: nat, last: nat)

  /** What is appended for one range. */
  function PrintRange(r: Range): (s: seq<byte>)
    ensures s != [] && IsDigit(s[0]) && COMMA !in s
  {
    if r.first == r.last then Print(r.first) else Print(r.first) + [COLON] + Print(r.last)
  }

  function PrintSet(set_: seq<Range>): seq<byte>
  {
    if set_ == [] then []
    else if |set_| == 1 then PrintRange(set_[0])
    else PrintRange(set_[0]) + ([COMMA] + PrintSet(set_[1..]))
  }

  /** The UIDs of a range, in order. */
  function Expand(r: Range): (s: seq<nat>)
    decreases r.last - r.first
  {
    if r.first > r.last then [] else [r.first] + Expand(Range(r.first + 1, r.last))
  }

  function ExpandAll(set_: seq<Range>): seq<nat>
  {
    if set_ == [] then [] else ExpandAll(set_[..|set_| - 1]) + Expand(set_[|set_| - 1])
  }

  function ExpandSets(sets: seq<seq<Range>>): seq<nat>
  {
    if sets == [] then [] else ExpandSets(sets[..|sets| - 1]) + ExpandAll(sets[|sets| - 1])
  }

  ghost predicate Ascending(s: seq<nat>)
  {
    forall i, j :: 0 <= i < j < |s| ==> s[i] < s[j]
  }

  // ---- Reading a set back ----

  /** sscanf(token, "%u:%u") == 2, else sscanf(token, "%u") == 1. */
  function ScanRange(token: seq<byte>): Option<Range>
  {
    var n := DigitCount(token);
    if n == 0 then None else
      var first := Value(token[..n]);
      if n < |token| && token[n] == COLON && DigitCount(token[n + 1..]) > 0
      then Some(Range(first, Value(token[n + 1..][..DigitCount(token[n + 1..])])))
      else Some(Range(first, first))
  }

  lemma ScanPrintedRange(r: Range)
    ensures ScanRange(PrintRange(r)) == Some(r)
  {
    if r.first == r.last {
      ScanPrinted(r.first, []);
      assert Print(r.first) + [] == Print(r.first);
    } else {
      var tail := [COLON] + Print(r.last);
      assert PrintRange(r) == Print(r.first) + tail;
      ScanPrinted(r.first, tail);
      ScanPrinted(r.last, []);
      assert Print(r.last) + [] == Print(r.last);
      assert PrintRange(r)[|Print(r.first)| + 1..] == tail[1..] == Print(r.last);
    }
  }

  function FirstComma(s: seq<byte>): (k: nat)
    ensures k <= |s| && COMMA !in s[..k]
    ensures k < |s| ==> s[k] == COMMA
  {
    if s == [] || s[0] == COMMA then 0 else
      var k := FirstComma(s[1..]) + 1;
      assert s[..k] == [s[0]] + s[1..][..k - 1];
      k
  }

  /** The ranges in a text, piece by piece between commas; a piece that is no number is passed over. */
  function ParseSet(s: seq<byte>): seq<Range>
  {
    if s == [] then [] else
      var k := FirstComma(s);
      var r := ScanRange(s[..k]);
      (if r.Some? then [r.value] else []) + (if k < |s| then ParseSet(s[k + 1..]) else [])
  }

  lemma {:induction false} FirstCommaIs(t: seq<byte>, rest: seq<byte>)
    requires COMMA !in t
    ensures FirstComma(t + [COMMA] + rest) == |t| && FirstComma(t) == |t|
  {
    if t != [] {
      assert t[0] in t;
      assert (t + [COMMA] + rest)[1..] == t[1..] + [COMMA] + rest;
      FirstCommaIs(t[1..], rest);
    }
  }

  function Piece(t: seq<byte>): seq<Range>
  {
    var r := ScanRange(t);
    if r.Some? then [r.value] else []
  }

  lemma ParseCut(head: seq<byte>, rest: seq<byte>)
    requires COMMA !in head
    ensures ParseSet(head + ([COMMA] + rest)) == Piece(head) + ParseSet(rest)
  {
    var s := head + ([COMMA] + rest);
    assert s == head + [COMMA] + rest;
    FirstCommaIs(head, rest);
    assert s[..|head|] == head && s[|head| + 1..] == rest;
  }

  lemma ParseOne(t: seq<byte>)
    requires COMMA !in t && t != []
    ensures ParseSet(t) == Piece(t)
  {
    FirstCommaIs(t, []);
    assert t[..|t|] == t;
  }

  lemma ParsePrintedRange(r: Range)
    ensures ParseSet(PrintRange(r)) == [r]
  {
    var s := PrintRange(r);
    ScanPrintedRange(r);
    ParseOne(s);
  }

  /** Reading back what was printed gives the same ranges. */
  lemma {:induction false} ParsePrintedSet(set_: seq<Range>)
    ensures ParseSet(PrintSet(set_)) == set_
    ensures set_ != [] ==> PrintSet(set_) != []
    decreases |set_|
  {
    if |set_| == 1 {
      ParsePrintedRange(set_[0]);
    } else if |set_| > 1 {
      ScanPrintedRange(set_[0]);
      ParseCut(PrintRange(set_[0]), PrintSet(set_[1..]));
      ParsePrintedSet(set_[1..]);
    }
  }

  /** Printing one more range appends it after a comma. */
  lemma {:induction false} PrintAppends(set_: seq<Range>, r: Range)
    ensures PrintSet(set_ + [r]) == if set_ == [] then PrintRange(r) else PrintSet(set_) + ([COMMA] + PrintRange(r))
    ensures set_ != [] ==> PrintSet(set_) != []
    decreases |set_|
  {
    if |set_| > 1 {
      var head, rest := set_[0], set_[1..];
      assert (set_ + [r])[1..] == rest + [r];
      PrintAppends(rest, r);
      Regroup(PrintRange(head), [COMMA], PrintSet(rest), [COMMA] + PrintRange(r));
    } else if |set_| == 1 {
      assert (set_ + [r])[1..] == [r];
    }
  }

  lemma Regroup(a: seq<byte>, b: seq<byte>, c: seq<byte>, d: seq<byte>)
    ensures a + (b + (c + d)) == (a + (b + c)) + d
  {
  }

  /** The number of UIDs a text stands for. */
  function CountOf(ranges: seq<Range>): int
  {
    if ranges == [] then 0 else ranges[0].last - ranges[0].first + 1 + CountOf(ranges[1..])
  }

  method FindComma(q: seq<byte>) returns (k: nat)
    ensures k == FirstComma(q)
  {
    k := 0;
    while k < |q| && q[k] != COMMA
      invariant k <= |q|
      invariant k + FirstComma(q[k..]) == FirstComma(q)
    {
      assert q[k..][1..] == q[k + 1..];
      k := k + 1;
    }
  }

  /** imap_seq_set_get_count */
  method GetCount(seqSet: seq<byte>) returns (count: int)
    ensures count == CountOf(ParseSet(seqSet))
  {
    count := 0;
    var q := seqSet;
    while q != []
      invariant count + CountOf(ParseSet(q)) == CountOf(ParseSet(seqSet))
      decreases |q|
    {
      var k := FindComma(q);
      var r := ScanRange(q[..k]);
      ghost var rest := if k < |q| then q[k + 1..] else [];
      CountAppends(Piece(q[..k]), ParseSet(rest));
      if r.Some? {
        count := count + (r.value.last - r.value.first + 1);
      }
      q := if k < |q| then q[k + 1..] else [];
    }
  }

  lemma {:induction false} ExpandIs(r: Range)
    requires r.first <= r.last
    ensures |Expand(r)| == r.last - r.first + 1
    ensures forall i :: 0 <= i < |Expand(r)| ==> Expand(r)[i] == r.first + i
    decreases r.last - r.first
  {
    if r.first < r.last {
      ExpandIs(Range(r.first + 1, r.last));
    } else {
      assert Expand(Range(r.first + 1, r.last)) == [];
    }
  }

  lemma {:induction false} CountAppends(a: seq<Range>, b: seq<Range>)
    ensures CountOf(a + b) == CountOf(a) + CountOf(b)
  {
    if a == [] {
      assert a + b == b;
    } else {
      assert (a + b)[1..] == a[1..] + b;
      CountAppends(a[1..], b);
    }
  }

  /** Counting is counting the UIDs. */
  lemma {:induction false} CountIsLength(ranges: seq<Range>)
    requires forall i :: 0 <= i < |ranges| ==> ranges[i].first <= ranges[i].last
    ensures CountOf(ranges) == |ExpandAll(ranges)|
    decreases |ranges|
  {
    if ranges != [] {
      var init, last := ranges[..|ranges| - 1], ranges[|ranges| - 1];
      CountIsLength(init);
      ExpandIs(last);
      CountAppends(init, [last]);
      assert ranges == init + [last];
    }
  }

  // ---- Sorting by number ----

  /** procmsg_cmp_by_number, ascending: the difference of two unsigned numbers, taken as a signed one. */
  function CompareNumbers(a: nat, b: nat): int
  {
    var d := (a - b) % TWO32;
    if d >= TWO32 / 2 then d - TWO32 else d
  }

  ghost predicate Distinct(s: seq<nat>)
  {
    forall i, j :: 0 <= i < j < |s| ==> s[i] != s[j]
  }

  /** The comparison puts the smaller number first exactly when the numbers are less than 2^31 apart, or exactly that and in order. */
  lemma ComparesRightExactly(a: nat, b: nat)
    requires a < TWO32 && b < TWO32
    ensures (CompareNumbers(a, b) <= 0 <==> a <= b) <==> -(TWO32 / 2) <= a - b < TWO32 / 2
  {
    if a >= b {
      assert (a - b) % TWO32 == a - b;
    } else {
      assert (a - b) % TWO32 == a - b + TWO32;
    }
  }

  lemma FarUidsCompareWrongly()
    ensures CompareNumbers(1, 0x8000_0002) > 0 && CompareNumbers(0x8000_0002, 1) < 0
  {
  }

  ghost predicate Near(s: seq<nat>)
  {
    forall i, j :: 0 <= i < |s| && 0 <= j < |s| ==> -(TWO32 / 2) < s[i] - s[j] < TWO32 / 2
  }

  /** What g_slist_sort may give: the same numbers, in the order of the comparison where that is one. */
  ghost predicate IsSorted(sorted: seq<nat>, msglist: seq<nat>)
  {
    && multiset(sorted) == multiset(msglist)
    && (Near(msglist) ==> forall i, j :: 0 <= i < j < |sorted| ==> CompareNumbers(sorted[i], sorted[j]) <= 0)
  }

  lemma SameMembers(a: seq<nat>, b: seq<nat>)
    requires multiset(a) == multiset(b)
    ensures |a| == |b| && forall x :: x in a <==> x in b
  {
    assert |multiset(a)| == |a| && |multiset(b)| == |b|;
    assert forall x :: x in a <==> x in multiset(a);
    assert forall x :: x in b <==> x in multiset(b);
  }

  lemma {:induction false} DistinctCounts(s: seq<nat>)
    ensures Distinct(s) <==> forall x :: multiset(s)[x] <= 1
    decreases |s|
  {
    if s != [] {
      assert s == [s[0]] + s[1..];
      DistinctCounts(s[1..]);
      if Distinct(s) {
        assert s[0] !in s[1..];
      }
      if !Distinct(s) && Distinct(s[1..]) {
        var i, j :| 0 <= i < j < |s| && s[i] == s[j];
        assert i == 0 && s[1..][j - 1] == s[0];
        assert multiset(s)[s[0]] >= 2;
      }
      if !Distinct(s[1..]) {
        var i, j :| 0 <= i < j < |s[1..]| && s[1..][i] == s[1..][j];
        assert s[i + 1] == s[j + 1];
        var x :| multiset(s[1..])[x] > 1;
        assert multiset(s)[x] > 1;
      }
    }
  }

  lemma SortedIsAscending(sorted: seq<nat>, msglist: seq<nat>)
    requires IsSorted(sorted, msglist) && Distinct(msglist) && forall i :: 0 <= i < |msglist| ==> 0 < msglist[i] < TWO32
    ensures |sorted| == |msglist| && Distinct(sorted) && forall i :: 0 <= i < |sorted| ==> 0 < sorted[i] < TWO32
    ensures Near(msglist) ==> Ascending(sorted)
  {
    SameMembers(sorted, msglist);
    DistinctCounts(msglist);
    DistinctCounts(sorted);
    forall i | 0 <= i < |sorted| ensures 0 < sorted[i] < TWO32 {
      assert sorted[i] in msglist;
    }
    if Near(msglist) {
      forall i, j | 0 <= i < j < |sorted| ensures sorted[i] < sorted[j] {
        assert sorted[i] in msglist && sorted[j] in msglist;
        ComparesRightExactly(sorted[i], sorted[j]);
      }
    }
  }

  // ---- Compression ----

  /** The ranges are well-formed, within the limit, and the text is short enough. */
  ghost predicate GoodSet(text: seq<byte>, set_: seq<Range>, limit: int)
  {
    && set_ != [] && text == PrintSet(set_)
    && (forall i :: 0 <= i < |set_| ==> set_[i].first <= set_[i].last)
    && (limit > 0 ==> |ExpandAll(set_)| <= limit)
    && |text| <= IMAP_CMD_LIMIT + 22
  }

  ghost predicate AllGood(sets: seq<seq<byte>>, ranges: seq<seq<Range>>, limit: int)
    decreases |sets|
  {
    |sets| == |ranges| && (sets == [] ||
      (GoodSet(sets[|sets| - 1], ranges[|sets| - 1], limit) && AllGood(sets[..|sets| - 1], ranges[..|sets| - 1], limit)))
  }

  lemma AddGood(sets: seq<seq<byte>>, ranges: seq<seq<Range>>, limit: int, text: seq<byte>, set_: seq<Range>)
    requires AllGood(sets, ranges, limit) && GoodSet(text, set_, limit)
    ensures AllGood(sets + [text], ranges + [set_], limit)
  {
    assert (sets + [text])[..|sets|] == sets && (ranges + [set_])[..|sets|] == ranges;
  }

  lemma {:induction false} GoodAt(sets: seq<seq<byte>>, ranges: seq<seq<Range>>, limit: int, k: nat)
    requires AllGood(sets, ranges, limit) && k < |sets|
    ensures GoodSet(sets[k], ranges[k], limit)
    decreases |sets|
  {
    if k < |sets| - 1 {
      GoodAt(sets[..|sets| - 1], ranges[..|sets| - 1], limit, k);
    }
  }

  lemma RangeTextLength(r: Range)
    requires r.first < TWO32 && r.last < TWO32
    ensures |PrintRange(r)| <= 21
  {
    assert Power10(10) == 10_000_000_000 by {
      assert Power10(5) == 100_000;
      assert Power10(10) == 100_000 * Power10(5);
    }
    PrintLength(r.first, 10);
    PrintLength(r.last, 10);
  }

  method AppendRange(str: seq<byte>, first: nat, last: nat, ghost set_: seq<Range>) returns (r: seq<byte>)
    requires str == PrintSet(set_) && first < TWO32 && last < TWO32
    ensures r == PrintSet(set_ + [Range(first, last)]) && r != []
    ensures |r| <= |str| + 22
  {
    PrintedNothing(set_);
    hide PrintSet, Print;
    r := str;
    if |r| > 0 {
      r := r + [COMMA];
    }
    if first == last {
      r := r + Print(first);
    } else {
      r := r + (Print(first) + [COLON] + Print(last));
    }
    PrintAppends(set_, Range(first, last));
    RangeTextLength(Range(first, last));
    PrintRangeIs(first, last);
  }

  lemma PrintRangeIs(first: nat, last: nat)
    ensures PrintRange(Range(first, last)) == if first == last then Print(first) else Print(first) + [COLON] + Print(last)
  {
  }

  /** Appending one range to a set appends its UIDs. */
  lemma ExpandAppends(set_: seq<Range>, r: Range)
    requires r.first <= r.last
    ensures ExpandAll(set_ + [r]) == ExpandAll(set_) + Expand(r)
    ensures |Expand(r)| == r.last - r.first + 1
    ensures forall i :: 0 <= i < |Expand(r)| ==> Expand(r)[i] == r.first + i
  {
    assert (set_ + [r])[..|set_|] == set_;
    ExpandIs(r);
  }

  lemma SetsAppend(sets: seq<seq<Range>>, set_: seq<Range>)
    ensures ExpandSets(sets + [set_]) == ExpandSets(sets) + ExpandAll(set_)
  {
    assert (sets + [set_])[..|sets|] == sets;
  }

  /** A run of consecutive numbers is one range. */
  lemma RunIsRange(sorted: seq<nat>, start: nat, i: nat, before: seq<nat>)
    requires start <= i < |sorted| && before == sorted[..start]
    requires forall j :: start <= j <= i ==> sorted[j] == sorted[start] + (j - start)
    ensures sorted[start] <= sorted[i]
    ensures before + Expand(Range(sorted[start], sorted[i])) == sorted[..i + 1]
    ensures |Expand(Range(sorted[start], sorted[i]))| == i + 1 - start
  {
    assert sorted[i] == sorted[start] + (i - start);
    ExpandIs(Range(sorted[start], sorted[i]));
  }

  /** The first i UIDs are in the finished sets, in the current set, or in the open run that starts at `start`. */
  ghost predicate Covered(sorted: seq<nat>, i: nat, start: nat, first: nat, ranges: seq<seq<Range>>, cur: seq<Range>)
  {
    && start <= i <= |sorted|
    && ExpandSets(ranges) + ExpandAll(cur) == sorted[..start]
    && (forall j :: start <= j < i ==> sorted[j] == first + (j - start))
    && (if i < |sorted| then sorted[i] == first + (i - start) else start == i)
  }

  /** Closing the run after i. */
  lemma CloseRun(sorted: seq<nat>, i: nat, start: nat, first: nat, ranges: seq<seq<Range>>, cur: seq<Range>)
    requires Covered(sorted, i, start, first, ranges, cur) && i < |sorted|
    ensures first <= sorted[i]
    ensures var cur', next := cur + [Range(first, sorted[i])], (if i + 1 < |sorted| then sorted[i + 1] else 0);
      && Covered(sorted, i + 1, i + 1, next, ranges, cur')
      && Covered(sorted, i + 1, i + 1, next, ranges + [cur'], [])
      && |ExpandAll(cur')| == |ExpandAll(cur)| + (i + 1 - start)
  {
    var r := Range(first, sorted[i]);
    assert first == sorted[start];
    RunIsRange(sorted, start, i, sorted[..start]);
    ExpandAppends(cur, r);
    assert ExpandSets(ranges) + (ExpandAll(cur) + Expand(r)) == (ExpandSets(ranges) + ExpandAll(cur)) + Expand(r);
    SetsAppend(ranges, cur + [r]);
    assert sorted[..i + 1] + [] == sorted[..i + 1];
  }

  /** The finished sets are good, and the current one is on the way to be. */
  ghost predicate Texts(sets: seq<seq<byte>>, ranges: seq<seq<Range>>, str: seq<byte>, cur: seq<Range>, limit: int)
  {
    && AllGood(sets, ranges, limit)
    && str == PrintSet(cur) && |str| <= IMAP_CMD_LIMIT
    && (forall k :: 0 <= k < |cur| ==> cur[k].first <= cur[k].last)
  }

  lemma Finished(sets: seq<seq<byte>>, ranges: seq<seq<Range>>, str: seq<byte>, cur: seq<Range>,
                 text: seq<byte>, r: Range, limit: int)
    requires Texts(sets, ranges, str, cur, limit) && r.first <= r.last
    requires text == PrintSet(cur + [r]) && |text| <= IMAP_CMD_LIMIT + 22
    requires limit > 0 ==> |ExpandAll(cur + [r])| <= limit
    ensures Texts(sets + [text], ranges + [cur + [r]], [], [], limit)
    ensures |text| <= IMAP_CMD_LIMIT ==> Texts(sets, ranges, text, cur + [r], limit)
  {
    AddGood(sets, ranges, limit, text, cur + [r]);
  }

  lemma NothingExpands()
    ensures ExpandAll([]) == []
  {
  }

  /** One UID: it ends the run, and perhaps the set, or the run goes on. */
  method Compress(sorted: seq<nat>, i: nat, limit: int, first: nat, count: nat, str: seq<byte>, sets: seq<seq<byte>>,
                  ghost start: nat, ghost ranges: seq<seq<Range>>, ghost cur: seq<Range>)
    returns (first': nat, count': nat, str': seq<byte>, sets': seq<seq<byte>>,
             ghost start': nat, ghost ranges': seq<seq<Range>>, ghost cur': seq<Range>)
    requires i < |sorted| && forall j :: 0 <= j < |sorted| ==> 0 < sorted[j] < TWO32
    requires Covered(sorted, i, start, first, ranges, cur) && Texts(sets, ranges, str, cur, limit)
    requires |ExpandAll(cur)| + (i - start) <= count && (limit > 0 ==> count < limit)
    ensures Covered(sorted, i + 1, start', first', ranges', cur') && Texts(sets', ranges', str', cur', limit)
    ensures |ExpandAll(cur')| + (i + 1 - start') <= count' && (limit > 0 ==> count' < limit)
  {
    hide ExpandSets, AllGood, PrintSet, ExpandAll;
    NothingExpands();
    var last := sorted[i];
    var next := if i + 1 < |sorted| then sorted[i + 1] else 0;
    CloseRun(sorted, i, start, first, ranges, cur);
    count' := count + 1;
    if limit > 0 && count' >= limit {
      str', sets', ranges', cur' := EndRun(first, last, true, limit, str, sets, ranges, cur);
      first', count', start' := next, 0, i + 1;
    } else if last + 1 != next || next == 0 {
      str', sets', ranges', cur' := EndRun(first, last, false, limit, str, sets, ranges, cur);
      first', start' := next, i + 1;
    } else {
      first', str', sets' := first, str, sets;
      start', ranges', cur' := start, ranges, cur;
    }
  }

  /** Where the UIDs read so far have gone. */
  datatype Cover = Cover(start: nat, ranges: seq<seq<Range>>, cur: seq<Range>)

  /** The loop invariant. */
  ghost predicate Inv(sorted: seq<nat>, i: nat, limit: int,
                      first: nat, count: nat, str: seq<byte>, sets: seq<seq<byte>>, c: Cover)
  {
    && Covered(sorted, i, c.start, first, c.ranges, c.cur) && Texts(sets, c.ranges, str, c.cur, limit)
    && |ExpandAll(c.cur)| + (i - c.start) <= count && (limit > 0 ==> count < limit)
  }

  /** Appends the run to the text; the text is finished when it has to be, or has grown past the limit. */
  method EndRun(first: nat, last: nat, full: bool, limit: int, str: seq<byte>, sets: seq<seq<byte>>,
                ghost ranges: seq<seq<Range>>, ghost cur: seq<Range>)
    returns (str': seq<byte>, sets': seq<seq<byte>>, ghost ranges': seq<seq<Range>>, ghost cur': seq<Range>)
    requires Texts(sets, ranges, str, cur, limit) && first <= last < TWO32
    requires limit > 0 ==> |ExpandAll(cur + [Range(first, last)])| <= limit
    ensures Texts(sets', ranges', str', cur', limit)
    ensures var grown := cur + [Range(first, last)];
      || (ranges' == ranges + [grown] && cur' == [])
      || (!full && ranges' == ranges && cur' == grown)
  {
    str' := AppendRange(str, first, last, cur);
    Finished(sets, ranges, str, cur, str', Range(first, last), limit);
    sets', ranges', cur' := sets, ranges, cur + [Range(first, last)];
    if full || |str'| > IMAP_CMD_LIMIT {
      sets', str' := sets + [str'], [];
      ranges', cur' := ranges + [cur'], [];
    }
  }

  method CompressOne(sorted: seq<nat>, i: nat, limit: int,
                     first: nat, count: nat, str: seq<byte>, sets: seq<seq<byte>>, ghost c: Cover)
    returns (first': nat, count': nat, str': seq<byte>, sets': seq<seq<byte>>, ghost c': Cover)
    requires i < |sorted| && forall j :: 0 <= j < |sorted| ==> 0 < sorted[j] < TWO32
    requires Inv(sorted, i, limit, first, count, str, sets, c)
    ensures Inv(sorted, i + 1, limit, first', count', str', sets', c')
  {
    ghost var start, ranges, cur;
    first', count', str', sets', start, ranges, cur :=
      Compress(sorted, i, limit, first, count, str, sets, c.start, c.ranges, c.cur);
    c' := Cover(start, ranges, cur);
  }

  lemma InvAtStart(sorted: seq<nat>, limit: int)
    requires sorted != []
    ensures Inv(sorted, 0, limit, sorted[0], 0, [], [], Cover(0, [], []))
  {
  }

  lemma InvAtEnd(sorted: seq<nat>, limit: int, first: nat, count: nat, str: seq<byte>, sets: seq<seq<byte>>, c: Cover)
    requires Inv(sorted, |sorted|, limit, first, count, str, sets, c)
    ensures ExpandSets(c.ranges) + ExpandAll(c.cur) == sorted
    ensures Texts(sets, c.ranges, str, c.cur, limit)
    ensures |ExpandAll(c.cur)| <= count && (limit > 0 ==> count < limit)
  {
    assert sorted[..|sorted|] == sorted;
  }

  method CompressAll(sorted: seq<nat>, limit: int) returns (sets: seq<seq<byte>>, ghost ranges: seq<seq<Range>>)
    requires sorted != [] && forall j :: 0 <= j < |sorted| ==> 0 < sorted[j] < TWO32
    ensures AllGood(sets, ranges, limit)
    ensures ExpandSets(ranges) == sorted
  {
    var str: seq<byte> := [];
    var first, count, i := sorted[0], 0, 0;
    ghost var c := Cover(0, [], []);
    sets := [];
    InvAtStart(sorted, limit);
    while i < |sorted|
      invariant i <= |sorted|
      invariant Inv(sorted, i, limit, first, count, str, sets, c)
    {
      first, count, str, sets, c := CompressOne(sorted, i, limit, first, count, str, sets, c);
      i := i + 1;
    }
    InvAtEnd(sorted, limit, first, count, str, sets, c);
    sets, ranges := LastSet(limit, count, str, sets, c.ranges, c.cur);
  }

  /** Whatever is left at the end is the last set. */
  method LastSet(limit: int, ghost count: nat, str: seq<byte>, sets: seq<seq<byte>>,
                 ghost ranges: seq<seq<Range>>, ghost cur: seq<Range>)
    returns (sets': seq<seq<byte>>, ghost ranges': seq<seq<Range>>)
    requires Texts(sets, ranges, str, cur, limit)
    requires |ExpandAll(cur)| <= count && (limit > 0 ==> count < limit)
    ensures AllGood(sets', ranges', limit)
    ensures ExpandSets(ranges') == ExpandSets(ranges) + ExpandAll(cur)
  {
    sets', ranges' := sets, ranges;
    if |str| > 0 {
      SetsAppend(ranges, cur);
      AddGood(sets, ranges, limit, str, cur);
      ranges' := ranges + [cur];
      sets' := sets + [str];
    } else {
      PrintedNothing(cur);
    }
  }

  /** The UIDs that the texts stand for, text by text, when they are read back. */
  function TextUids(sets: seq<seq<byte>>): seq<nat>
  {
    if sets == [] then [] else TextUids(sets[..|sets| - 1]) + ExpandAll(ParseSet(sets[|sets| - 1]))
  }

  function SumOfCounts(sets: seq<seq<byte>>): int
  {
    if sets == [] then 0 else SumOfCounts(sets[..|sets| - 1]) + CountOf(ParseSet(sets[|sets| - 1]))
  }

  /** Reading good texts back gives their ranges, and the counts add up to the number of UIDs. */
  lemma {:induction false} TextsReadBack(sets: seq<seq<byte>>, ranges: seq<seq<Range>>, limit: int)
    requires AllGood(sets, ranges, limit)
    ensures TextUids(sets) == ExpandSets(ranges) && SumOfCounts(sets) == |TextUids(sets)|
    decreases |sets|
  {
    if sets != [] {
      var n := |sets| - 1;
      TextsReadBack(sets[..n], ranges[..n], limit);
      assert GoodSet(sets[n], ranges[n], limit);
      ParsePrintedSet(ranges[n]);
      CountIsLength(ranges[n]);
    }
  }

  /** A text that is sent: not empty, at most 22 characters over the command limit, and within the limit of messages. */
  predicate Sendable(text: seq<byte>, limit: int)
  {
    && 0 < |text| <= IMAP_CMD_LIMIT + 22
    && (limit > 0 ==> 0 < |ExpandAll(ParseSet(text))| <= limit)
  }

  lemma GoodIsSendable(text: seq<byte>, set_: seq<Range>, limit: int)
    requires GoodSet(text, set_, limit)
    ensures Sendable(text, limit)
  {
    ParsePrintedSet(set_);
    CountIsLength(set_);
    CountPositive(set_);
  }

  lemma {:induction false} CountPositive(set_: seq<Range>)
    requires set_ != [] && forall i :: 0 <= i < |set_| ==> set_[i].first <= set_[i].last
    ensures CountOf(set_) > 0
  {
    if |set_| > 1 {
      CountPositive(set_[1..]);
    }
  }

  /**
   imap_get_seq_set_from_msglist, with the list as g_slist_sort left it.  Read back, the
   texts stand for each of the given UIDs exactly once, in ascending order unless two of
   them are 2^31 or more apart; their counts add up to the number of messages.
   */
  method GetSeqSets(msglist: seq<nat>, sorted: seq<nat>, limit: int) returns (sets: seq<seq<byte>>)
    requires Distinct(msglist) && IsSorted(sorted, msglist)
    requires forall i :: 0 <= i < |msglist| ==> 0 < msglist[i] < TWO32
    ensures multiset(TextUids(sets)) == multiset(msglist) && Distinct(TextUids(sets))
    ensures Near(msglist) ==> Ascending(TextUids(sets))
    ensures SumOfCounts(sets) == |msglist|
    ensures forall k :: 0 <= k < |sets| ==> Sendable(sets[k], limit)
  {
    SortedIsAscending(sorted, msglist);
    hide Distinct, Near, IsSorted, Ascending, GoodSet, Sendable, ExpandSets, TextUids, SumOfCounts;
    ghost var ranges;
    if msglist == [] {
      sets, ranges := [], [];
      NoSets();
    } else {
      sets, ranges := CompressAll(sorted, limit);
      TextsReadBack(sets, ranges, limit);
      forall k | 0 <= k < |sets| ensures Sendable(sets[k], limit) {
        GoodAt(sets, ranges, limit, k);
        GoodIsSendable(sets[k], ranges[k], limit);
      }
    }
  }

  lemma NoSets()
    ensures TextUids([]) == [] && SumOfCounts([]) == 0
  {
  }

  lemma PrintedNothing(set_: seq<Range>)
    ensures PrintSet(set_) == [] <==> set_ == []
  {
    ParsePrintedSet(set_);
  }

  // ---- No UID twice ----

  lemma {:induction false} MemberOfText(sets: seq<seq<byte>>, j: nat, u: nat)
    requires j < |sets| && u in ExpandAll(ParseSet(sets[j]))
    ensures u in TextUids(sets)
    decreases |sets|
  {
    hide ParseSet, ExpandAll;
    if j < |sets| - 1 {
      MemberOfText(sets[..|sets| - 1], j, u);
    }
  }

  lemma DistinctParts(a: seq<nat>, b: seq<nat>)
    requires Distinct(a + b)
    ensures Distinct(a) && Distinct(b) && forall u :: u in a ==> u !in b
  {
    forall i, j | 0 <= i < j < |a| ensures a[i] != a[j] {
      assert (a + b)[i] == a[i] && (a + b)[j] == a[j];
    }
    forall i, j | 0 <= i < j < |b| ensures b[i] != b[j] {
      assert (a + b)[|a| + i] == b[i] && (a + b)[|a| + j] == b[j];
    }
    forall u | u in a ensures u !in b {
      var i :| 0 <= i < |a| && a[i] == u;
      forall j | 0 <= j < |b| ensures b[j] != u {
        assert (a + b)[i] == a[i] && (a + b)[|a| + j] == b[j];
      }
    }
  }

  /** What one text stands for has no UID twice, in one of its ranges or in two, and no UID of another text. */
  lemma {:induction false} TextsAreDisjoint(sets: seq<seq<byte>>, j: nat, k: nat)
    requires Distinct(TextUids(sets)) && j <= k < |sets|
    ensures Distinct(ExpandAll(ParseSet(sets[k])))
    ensures j < k ==> forall u :: u in ExpandAll(ParseSet(sets[j])) ==> u !in ExpandAll(ParseSet(sets[k]))
    decreases |sets|
  {
    hide ParseSet, ExpandAll, Distinct;
    var n := |sets| - 1;
    DistinctParts(TextUids(sets[..n]), ExpandAll(ParseSet(sets[n])));
    if k < n {
      TextsAreDisjoint(sets[..n], j, k);
    } else if j < n {
      forall u | u in ExpandAll(ParseSet(sets[j])) ensures u !in ExpandAll(ParseSet(sets[k])) {
        assert sets[..n][j] == sets[j];
        MemberOfText(sets[..n], j, u);
      }
    }
  }
}
