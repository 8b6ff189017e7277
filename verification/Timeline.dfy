/** The rotating window on its own: a row of slots, slot 0 the newest, that shifts up by one.
    `T` is whatever a slot holds: one file of a snapshot, or the map it stands for. */
module Timeline {
  import opened Values

  /** Slots `lo` and above move up by one. The last slot is overwritten when something moves
      into it and keeps its content otherwise; slots below `lo` stay. */
  function Shift<T>(s: seq<Option<T>>, lo: nat): (r: seq<Option<T>>)
    ensures |r| == |s|
  {
    seq(|s|, k requires 0 <= k < |s| =>
      if k < lo || lo >= |s| - 1 then s[k]
      else if k == lo then None
      else if k == |s| - 1 && s[k - 1].None? then s[k]
      else s[k - 1])
  }

  /** A shift from `lo` is the move out of the second-highest slot followed by a shift of the
      slots below it. */
  lemma ShiftFromTheTop<T>(s: seq<Option<T>>, lo: nat)
    requires lo + 1 < |s|
    ensures var n := |s| - 1; var moved := Shift(s, n - 1);
            Shift(s, lo) == Shift(moved[..n], lo) + [moved[n]]
  {
  }

  /** One shift from `lo`, then possibly a new entry at slot `lo`. */
  function Advance<T>(s: seq<Option<T>>, lo: nat, entry: Option<T>): (r: seq<Option<T>>)
    ensures |r| == |s|
  {
    var r := Shift(s, lo);
    if entry.Some? && lo < |s| then r[lo := entry] else r
  }

  function AdvanceFirst<T>(s: seq<Option<T>>, lo: nat, entries: seq<Option<T>>, n: nat): (r: seq<Option<T>>)
    requires n <= |entries|
    ensures |r| == |s|
  {
    if n == 0 then s else Advance(AdvanceFirst(s, lo, entries, n - 1), lo, entries[n - 1])
  }

  function AdvanceAll<T>(s: seq<Option<T>>, lo: nat, entries: seq<Option<T>>): (r: seq<Option<T>>)
    ensures |r| == |s|
  {
    AdvanceFirst(s, lo, entries, |entries|)
  }

  lemma {:induction false} LaterEntriesDoNotMatter<T>(s: seq<Option<T>>, lo: nat, entries: seq<Option<T>>,
                                                      later: seq<Option<T>>, n: nat)
    requires n <= |entries|
    ensures AdvanceFirst(s, lo, entries + later, n) == AdvanceFirst(s, lo, entries, n)
  {
    if n > 0 {
      LaterEntriesDoNotMatter(s, lo, entries, later, n - 1);
    }
  }

  lemma AdvanceAllOneMore<T>(s: seq<Option<T>>, lo: nat, earlier: seq<Option<T>>, entry: Option<T>)
    ensures AdvanceAll(s, lo, earlier + [entry]) == Advance(AdvanceAll(s, lo, earlier), lo, entry)
  {
    LaterEntriesDoNotMatter(s, lo, earlier, [entry], |earlier|);
  }

  function Reverse<T>(s: seq<T>): (r: seq<T>)
    ensures |r| == |s|
    ensures forall i :: 0 <= i < |s| ==> r[i] == s[|s| - 1 - i]
  {
    seq(|s|, i requires 0 <= i < |s| => s[|s| - 1 - i])
  }

  /** The first entry that is present. */
  function Newest<T>(s: seq<Option<T>>): Option<T> {
    if s == [] then None
    else if s[0].Some? then s[0]
    else Newest(s[1..])
  }

  lemma {:induction false} NewestIsFirstPresent<T>(s: seq<Option<T>>, i: nat)
    requires i < |s| && s[i].Some?
    requires forall j :: 0 <= j < i ==> s[j].None?
    ensures Newest(s) == s[i]
  {
    if i > 0 {
      NewestIsFirstPresent(s[1..], i - 1);
    }
  }

  lemma {:induction false} NewestOfAbsent<T>(s: seq<Option<T>>)
    ensures Newest(s).None? <==> forall i :: 0 <= i < |s| ==> s[i].None?
  {
    if s != [] && s[0].None? {
      NewestOfAbsent(s[1..]);
      assert forall i :: 1 <= i < |s| ==> s[i] == s[1..][i - 1];
    }
  }

  /** Number of present slots before the first absent one. */
  function Leading<T>(s: seq<Option<T>>): (n: nat)
    ensures n <= |s|
    ensures forall i :: 0 <= i < n ==> s[i].Some?
    ensures n < |s| ==> s[n].None?
  {
    if s == [] || s[0].None? then 0 else 1 + Leading(s[1..])
  }

  lemma {:induction false} LeadingIs<T>(s: seq<Option<T>>, n: nat)
    requires n <= |s| && (forall i :: 0 <= i < n ==> s[i].Some?) && (n < |s| ==> s[n].None?)
    ensures Leading(s) == n
  {
  }

  lemma {:induction false} LeadingAtLeast<T>(s: seq<Option<T>>, n: nat)
    requires n <= |s| && forall i :: 0 <= i < n ==> s[i].Some?
    ensures n <= Leading(s)
  {
    if n > 0 {
      LeadingAtLeast(s[1..], n - 1);
    }
  }

  /** Everything that ever was at slot `lo` or above, newest first. */
  function Line<T>(s: seq<Option<T>>, lo: nat, entries: seq<Option<T>>): (r: seq<Option<T>>)
    requires lo < |s|
    ensures |r| == |entries| + |s| - lo
  {
    Reverse(entries) + s[lo..]
  }

  /** A row that shows the first n entries of a line above some fixed slots and keeps, in its
      last slot, the newest entry of the rest. */
  function Window<T>(below: seq<Option<T>>, line: seq<Option<T>>, n: nat): (r: seq<Option<T>>)
    requires n < |line|
    ensures |r| == |below| + n + 1
    ensures forall k :: 0 <= k < |below| ==> r[k] == below[k]
    ensures forall k :: |below| <= k < |below| + n ==> r[k] == line[k - |below|]
    ensures r[|below| + n] == Newest(line[n..])
  {
    below + line[..n] + [Newest(line[n..])]
  }

  lemma WindowAdvances<T>(below: seq<Option<T>>, line: seq<Option<T>>, entry: Option<T>, n: nat)
    requires n < |line|
    ensures Advance(Window(below, line, n), |below|, entry) == Window(below, [entry] + line, n)
  {
    var longer := [entry] + line;
    assert longer[n..] == [longer[n]] + line[n..];
    var w := Window(below, line, n);
    var r, goal := Advance(w, |below|, entry), Window(below, longer, n);
    assert r[|below| + n] == goal[|below| + n];
    forall k | 0 <= k < |below| + n ensures r[k] == goal[k] {
    }
  }

  lemma LineOfNothing<T>(s: seq<Option<T>>, lo: nat)
    requires lo < |s|
    ensures Line(s, lo, []) == s[lo..]
  {
  }

  lemma NewestOfOne<T>(entry: Option<T>)
    ensures Newest([entry]) == entry
  {
  }

  lemma RowIsWindow<T>(s: seq<Option<T>>, lo: nat)
    requires lo < |s|
    ensures s == Window(s[..lo], s[lo..], |s| - 1 - lo)
  {
    var top := |s| - 1;
    assert s[lo..][top - lo..] == [s[top]];
    NewestOfOne(s[top]);
    assert s[lo..][..top - lo] == s[lo..top];
    assert s == s[..lo] + s[lo..top] + [s[top]];
  }

  lemma LineGrows<T>(s: seq<Option<T>>, lo: nat, earlier: seq<Option<T>>, entry: Option<T>)
    requires lo < |s|
    ensures Line(s, lo, earlier + [entry]) == [entry] + Line(s, lo, earlier)
  {
  }

  lemma OneMoreOnTheLine<T>(s: seq<Option<T>>, lo: nat, earlier: seq<Option<T>>, entry: Option<T>, r: seq<Option<T>>)
    requires lo < |s| && r == Window(s[..lo], Line(s, lo, earlier), |s| - 1 - lo)
    ensures Advance(r, lo, entry) == Window(s[..lo], Line(s, lo, earlier + [entry]), |s| - 1 - lo)
  {
    WindowAdvances(s[..lo], Line(s, lo, earlier), entry, |s| - 1 - lo);
    LineGrows(s, lo, earlier, entry);
  }

  /** The whole effect of any number of rotations on any row, holes included: below `lo` nothing
      changes; from `lo` up the slots are a window on the line; and the last slot holds the newest
      entry of the rest of the line. */
  lemma {:induction false} WindowOnTheLine<T>(s: seq<Option<T>>, lo: nat, entries: seq<Option<T>>)
    requires lo < |s|
    ensures AdvanceAll(s, lo, entries) == Window(s[..lo], Line(s, lo, entries), |s| - 1 - lo)
    decreases |entries|
  {
    if entries == [] {
      LineOfNothing(s, lo);
      RowIsWindow(s, lo);
    } else {
      var earlier, entry := entries[..|entries| - 1], entries[|entries| - 1];
      WindowOnTheLine(s, lo, earlier);
      OneMoreOnTheLine(s, lo, earlier, entry, AdvanceAll(s, lo, earlier));
      AdvanceAllOneMore(s, lo, earlier, entry);
      assert earlier + [entry] == entries;
    }
  }

  // ---------- Consequences

  function Least(n: nat, m: nat): nat {
    if n < m then n else m
  }

  /** The row holds these items, newest first, and nothing else. */
  ghost predicate ShowsLatest<T>(row: seq<Option<T>>, items: seq<T>) {
    forall k :: 0 <= k < |row| ==> row[k] == if k < |items| then Some(items[|items| - 1 - k]) else None
  }

  function Present<T>(items: seq<T>): (r: seq<Option<T>>)
    ensures |r| == |items| && forall i :: 0 <= i < |items| ==> r[i] == Some(items[i])
  {
    seq(|items|, i requires 0 <= i < |items| => Some(items[i]))
  }

  lemma PresentOneMore<T>(items: seq<T>)
    requires items != []
    ensures var n := |items| - 1; Present(items) == Present(items[..n]) + [Some(items[n])]
  {
  }

  function Absent<T>(n: nat): (r: seq<Option<T>>)
    ensures |r| == n && forall i :: 0 <= i < n ==> r[i] == None
  {
    seq(n, _ => None)
  }

  /** A row that shows the head of a line and keeps the newest entry of the rest last. */
  ghost predicate Shows<T>(r: seq<Option<T>>, line: seq<Option<T>>) {
    && 0 < |r| <= |line|
    && (forall k :: 0 <= k < |r| - 1 ==> r[k] == line[k])
    && r[|r| - 1] == Newest(line[|r| - 1..])
  }

  lemma WindowShows<T>(line: seq<Option<T>>, n: nat)
    requires n < |line|
    ensures Shows(Window([], line, n), line)
  {
  }

  lemma WholeLine<T>(s: seq<Option<T>>, entries: seq<Option<T>>)
    requires |s| > 0
    ensures s[..0] == [] && Line(s, 0, entries) == Reverse(entries) + s
  {
  }

  lemma PushesShow<T>(s: seq<Option<T>>, items: seq<T>, r: seq<Option<T>>)
    requires |s| > 0 && r == AdvanceAll(s, 0, Present(items))
    ensures Shows(r, Reverse(Present(items)) + s)
  {
    WindowOnTheLine(s, 0, Present(items));
    WholeWindowShows(s, Present(items), r);
  }

  lemma WholeWindowShows<T>(s: seq<Option<T>>, entries: seq<Option<T>>, r: seq<Option<T>>)
    requires |s| > 0 && r == Window(s[..0], Line(s, 0, entries), |s| - 1)
    ensures Shows(r, Reverse(entries) + s)
  {
    WholeLine(s, entries);
    WindowShows(Line(s, 0, entries), |s| - 1);
  }

  /** From any row s, the slots of the row r after some pushes that have been pushed into hold the
      latest pushes, newest first. */
  lemma LatestPushesStand<T>(s: seq<Option<T>>, items: seq<T>, r: seq<Option<T>>)
    requires |s| > 0 && r == AdvanceAll(s, 0, Present(items))
    ensures forall k :: 0 <= k < |s| && k < |items| ==> r[k] == Some(items[|items| - 1 - k])
  {
    PushesShow(s, items, r);
    LatestShown(s, items, r);
  }

  lemma LatestShown<T>(s: seq<Option<T>>, items: seq<T>, r: seq<Option<T>>)
    requires |r| == |s| && Shows(r, Reverse(Present(items)) + s)
    ensures forall k :: 0 <= k < |s| && k < |items| ==> r[k] == Some(items[|items| - 1 - k])
  {
  }

  /** From an empty row, the other slots are absent. */
  lemma OnlyPushesStand<T>(n: nat, items: seq<T>, r: seq<Option<T>>)
    requires n > 0 && r == AdvanceAll(Absent(n), 0, Present(items))
    ensures |r| == n && ShowsLatest(r, items)
  {
    PushesShow(Absent(n), items, r);
    LatestShown(Absent(n), items, r);
    OthersShownAbsent(n, items, r);
  }

  lemma OthersShownAbsent<T>(n: nat, items: seq<T>, r: seq<Option<T>>)
    requires |r| == n && Shows(r, Reverse(Present(items)) + Absent(n))
    ensures forall k :: |items| <= k < n ==> r[k] == None
  {
    var line, top := Reverse(Present(items)) + Absent(n), n - 1;
    forall k | |items| <= k < n
      ensures r[k] == None
    {
      assert forall i :: |items| <= i < |line| ==> line[i] == None;
      if k == top {
        assert forall i :: 0 <= i < |line[top..]| ==> line[top..][i] == line[top + i];
        NewestOfAbsent(line[top..]);
      }
    }
  }

  /** An old entry, or an old hole, moves up one slot per push, until it gets to the last slot. */
  lemma OldEntriesMoveUp<T>(s: seq<Option<T>>, items: seq<T>, r: seq<Option<T>>, i: nat)
    requires r == AdvanceAll(s, 0, Present(items)) && i + |items| < |s| - 1
    ensures r[i + |items|] == s[i]
  {
    PushesShow(s, items, r);
    assert (Reverse(Present(items)) + s)[i + |items|] == s[i];
  }

  /** The last slot keeps the newest of the entries that got there. */
  lemma LastSlotKeepsNewest<T>(s: seq<Option<T>>, items: seq<T>, r: seq<Option<T>>, i: nat)
    requires r == AdvanceAll(s, 0, Present(items)) && i + |items| == |s| - 1
    ensures r[|s| - 1] == Newest(s[i..])
  {
    PushesShow(s, items, r);
    RestOfLine(Reverse(Present(items)), s, i);
  }

  lemma RestOfLine<T>(pushed: seq<Option<T>>, s: seq<Option<T>>, i: nat)
    requires i <= |s|
    ensures (pushed + s)[|pushed| + i..] == s[i..]
  {
  }

  /** A single hole moves up one slot per push and is gone once it would reach the last slot. */
  lemma HoleMovesUp<T>(s: seq<Option<T>>, hole: nat, items: seq<T>, r: seq<Option<T>>)
    requires hole < |s| - 1 && r == AdvanceAll(s, 0, Present(items))
    requires forall k :: 0 <= k < |s| ==> (s[k].None? <==> k == hole)
    ensures forall k :: 0 <= k < |s| ==> (r[k].None? <==> k == hole + |items| && k < |s| - 1)
  {
    PushesShow(s, items, r);
    HoleShown(s, hole, items, r);
  }

  lemma HoleShown<T>(s: seq<Option<T>>, hole: nat, items: seq<T>, r: seq<Option<T>>)
    requires hole < |s| - 1 && |r| == |s| && Shows(r, Reverse(Present(items)) + s)
    requires forall k :: 0 <= k < |s| ==> (s[k].None? <==> k == hole)
    ensures forall k :: 0 <= k < |s| ==> (r[k].None? <==> k == hole + |items| && k < |s| - 1)
  {
    var line, top := Reverse(Present(items)) + s, |s| - 1;
    assert forall i :: 0 <= i < |line| ==> (line[i].None? <==> i == hole + |items|);
    assert line[top..][|line| - 1 - top] == line[|line| - 1];
    NewestOfAbsent(line[top..]);
  }

  /** Rotating from `lo` with nothing to add settles after `|s| - 1 - lo` rounds: the slots in
      between are empty and the last one holds the newest entry there was. */
  lemma SettlesWhenNothingIsAdded<T>(s: seq<Option<T>>, lo: nat, n: nat)
    requires lo < |s| && n >= |s| - 1 - lo
    ensures AdvanceAll(s, lo, Absent(n)) == s[..lo] + Absent(|s| - 1 - lo) + [Newest(s[lo..])]
  {
    WindowOnTheLine(s, lo, Absent(n));
    WindowOnAbsent(s, lo, n, Line(s, lo, Absent(n)));
  }

  lemma WindowOnAbsent<T>(s: seq<Option<T>>, lo: nat, n: nat, line: seq<Option<T>>)
    requires lo < |s| && n >= |s| - 1 - lo && line == Line(s, lo, Absent(n))
    ensures Window(s[..lo], line, |s| - 1 - lo) == s[..lo] + Absent(|s| - 1 - lo) + [Newest(s[lo..])]
  {
    LineOfAbsent(s, lo, n);
    AbsentLine(s[lo..], n, |s| - 1 - lo);
  }

  lemma LineOfAbsent<T>(s: seq<Option<T>>, lo: nat, n: nat)
    requires lo < |s|
    ensures Line(s, lo, Absent(n)) == Absent(n) + s[lo..]
  {
    assert Reverse(Absent<T>(n)) == Absent(n);
  }

  lemma AbsentLine<T>(rest: seq<Option<T>>, n: nat, gap: nat)
    requires gap <= n
    ensures (Absent<T>(n) + rest)[..gap] == Absent(gap)
    ensures Newest((Absent<T>(n) + rest)[gap..]) == Newest(rest)
  {
    assert (Absent<T>(n) + rest)[gap..] == Absent(n - gap) + rest;
    NewestSkipsAbsent(n - gap, rest);
  }

  lemma {:induction false} NewestSkipsAbsent<T>(n: nat, s: seq<Option<T>>)
    ensures Newest(Absent(n) + s) == Newest(s)
  {
    if n == 0 {
      assert Absent<T>(0) + s == s;
    } else {
      assert (Absent(n) + s)[1..] == Absent(n - 1) + s;
      NewestSkipsAbsent(n - 1, s);
    }
  }
}
