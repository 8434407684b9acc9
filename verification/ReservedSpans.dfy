/** Reserved address spans and the search for pages that touch none of them. */
module ReservedSpans {
  import opened Words

  const CAPACITY: nat := 6

  /** Highest address the searches may reach without wrapping past 2^64. */
  const TOP: nat := U64 - 3 * PAGE

  datatype Span = Span(start: nat, size: nat) {
    function End(): nat {
      start + size
    }

    /** Every byte of `inner` is a byte of this span. */
    predicate Covers(inner: Span) {
      start <= inner.start && inner.End() <= End()
    }

    predicate Has(b: nat) {
      start <= b < End()
    }
  }

  // ---------------------------------------------------------------- recording spans

  /** 64-bit unsigned subtraction. */
  function Sub64(a: u64, b: u64): u64 {
    if a >= b then a - b else a - b + U64
  }

  /** A new span is merged when it starts at the end of the last one or at most one page after it. */
  predicate Merges(spans: seq<Span>, new_: Span)
    requires new_.End() <= TOP
    requires forall s :: s in spans ==> s.End() <= TOP
  {
    spans != [] && Sub64(new_.start, spans[|spans| - 1].End()) <= PAGE
  }

  ghost predicate Recordable(spans: seq<Span>) {
    && |spans| <= CAPACITY
    && forall s :: s in spans ==> 0 < s.size && s.End() <= TOP
  }

  /** What one call of the recording function leaves in the table. */
  function AddSpan(spans: seq<Span>, new_: Span): (r: seq<Span>)
    requires Recordable(spans) && new_.End() <= TOP
    ensures Recordable(r)
  {
    if new_.size == 0 then spans
    else if Merges(spans, new_) then
      var last := spans[|spans| - 1];
      spans[|spans| - 1 := Span(last.start, new_.End() - last.start)]
    else if |spans| >= CAPACITY then spans
    else spans + [new_]
  }

  ghost predicate CoveredBy(inner: Span, spans: seq<Span>) {
    exists i :: 0 <= i < |spans| && spans[i].Covers(inner)
  }

  /** Exactly when the recording call leaves the new span covered: it is not lost unless the table
      is full, it cannot be merged, and nothing already recorded covers it. */
  lemma AddSpanCovers(spans: seq<Span>, new_: Span)
    requires Recordable(spans) && new_.End() <= TOP && 0 < new_.size
    ensures CoveredBy(new_, AddSpan(spans, new_)) <==>
            (|spans| < CAPACITY || Merges(spans, new_) || CoveredBy(new_, spans))
  {
    var r := AddSpan(spans, new_);
    if Merges(spans, new_) || |spans| < CAPACITY {
      assert r[|r| - 1].Covers(new_);
    }
  }

  /** A recording call never uncovers what was covered before. */
  lemma AddSpanKeeps(spans: seq<Span>, new_: Span, inner: Span)
    requires Recordable(spans) && new_.End() <= TOP
    requires CoveredBy(inner, spans)
    ensures CoveredBy(inner, AddSpan(spans, new_))
  {
    var i :| 0 <= i < |spans| && spans[i].Covers(inner);
    assert AddSpan(spans, new_)[i].Covers(inner);
  }

  ghost predicate AllBelowTop(added: seq<Span>) {
    forall i :: 0 <= i < |added| ==> added[i].End() <= TOP
  }

  function AddAll(spans: seq<Span>, added: seq<Span>): (r: seq<Span>)
    requires Recordable(spans) && AllBelowTop(added)
    ensures Recordable(r)
    decreases |added|
  {
    if added == [] then spans else AddAll(AddSpan(spans, added[0]), added[1..])
  }

  /** No call of the sequence finds the table full and the span unmergeable. */
  predicate NeverFull(spans: seq<Span>, added: seq<Span>)
    requires Recordable(spans) && AllBelowTop(added)
    decreases |added|
  {
    added == [] ||
    (&& (added[0].size == 0 || Merges(spans, added[0]) || |spans| < CAPACITY)
     && NeverFull(AddSpan(spans, added[0]), added[1..]))
  }

  lemma {:induction false} AddAllKeeps(spans: seq<Span>, added: seq<Span>, inner: Span)
    requires Recordable(spans) && AllBelowTop(added)
    requires CoveredBy(inner, spans)
    ensures CoveredBy(inner, AddAll(spans, added))
    decreases |added|
  {
    if added != [] {
      AddSpanKeeps(spans, added[0], inner);
      AddAllKeeps(AddSpan(spans, added[0]), added[1..], inner);
    }
  }

  /** No byte is lost: while the table does not overflow, each nonempty span that was added stays
      covered by one recorded region. */
  lemma {:induction false} AddAllCovers(spans: seq<Span>, added: seq<Span>, k: nat)
    requires Recordable(spans) && AllBelowTop(added) && NeverFull(spans, added)
    requires k < |added| && 0 < added[k].size
    ensures CoveredBy(added[k], AddAll(spans, added))
    decreases |added|
  {
    var next := AddSpan(spans, added[0]);
    if k == 0 {
      AddSpanCovers(spans, added[0]);
      AddAllKeeps(next, added[1..], added[0]);
    } else {
      AddAllCovers(next, added[1..], k - 1);
    }
  }

  /** The k-th span is the next nonempty one after the i-th. */
  ghost predicate Follows(added: seq<Span>, i: nat, k: nat) {
    i < k < |added| && 0 < added[i].size && 0 < added[k].size && forall j :: i < j < k ==> added[j].size == 0
  }

  /** `b` lies in an added span, or in a gap of at most one page between two nonempty spans with only
      empty ones between them. */
  ghost predicate Explained(added: seq<Span>, b: nat) {
    || (exists i :: 0 <= i < |added| && added[i].Has(b))
    || (exists i: nat, k: nat :: Follows(added, i, k) && added[i].End() <= b < added[k].start <= added[i].End() + 4096)
  }

  /** The last nonempty span, or -1. */
  function LastNonempty(added: seq<Span>): (i: int)
    ensures -1 <= i < |added|
    ensures 0 <= i ==> 0 < added[i].size
    ensures forall j :: i < j < |added| ==> added[j].size == 0
  {
    if added == [] then -1
    else if 0 < added[|added| - 1].size then |added| - 1
    else LastNonempty(added[..|added| - 1])
  }

  lemma {:induction false} LastOfMore(init: seq<Span>, s: Span)
    ensures LastNonempty(init + [s]) == if 0 < s.size then |init| else LastNonempty(init)
  {
    assert (init + [s])[..|init|] == init;
  }

  lemma {:induction false} AddAllSnoc(spans: seq<Span>, added: seq<Span>, s: Span)
    requires Recordable(spans) && AllBelowTop(added) && s.End() <= TOP
    ensures AllBelowTop(added + [s])
    ensures AddAll(spans, added + [s]) == AddSpan(AddAll(spans, added), s)
    ensures NeverFull(spans, added + [s]) ==>
              NeverFull(spans, added) &&
              (s.size == 0 || Merges(AddAll(spans, added), s) || |AddAll(spans, added)| < CAPACITY)
    decreases |added|
  {
    if added == [] {
      assert [s][1..] == [];
    } else {
      AddAllSnoc(AddSpan(spans, added[0]), added[1..], s);
      assert (added + [s])[1..] == added[1..] + [s];
    }
  }

  /** Nothing is invented: every byte of a recorded region is explained by the spans added, and the
      last region ends where the last nonempty span ends. Empty spans leave no trace. */
  lemma {:induction false} AddAllExplained(added: seq<Span>)
    requires AllBelowTop(added) && NeverFull([], added)
    ensures AddAll([], added) == [] <==> LastNonempty(added) == -1
    ensures LastNonempty(added) != -1 ==>
              AddAll([], added)[|AddAll([], added)| - 1].End() == added[LastNonempty(added)].End()
    ensures forall s, b: nat :: s in AddAll([], added) && s.Has(b) ==> Explained(added, b)
    decreases |added|
  {
    hide AddSpan, Explained, Merges, LastNonempty;
    if added == [] {
      assert AddAll([], added) == [];
    } else {
      var init, s := added[..|added| - 1], added[|added| - 1];
      assert added == init + [s];
      AddAllSnoc([], init, s);
      LastOfMore(init, s);
      AddAllExplained(init);
      var before := AddAll([], init);
      if s.size == 0 {
        EmptySpanIgnored(before, s);
      } else {
        AddSpanIsLast(before, s);
      }
      hide AddAll, NeverFull, AllBelowTop;
      forall r, b: nat | r in AddSpan(before, s) && r.Has(b) ensures Explained(added, b) {
        AddSpanExplained(init, before, s, r, b);
      }
    }
  }

  /** Recording a span of size 0 leaves the spans as they were. */
  lemma EmptySpanIgnored(spans: seq<Span>, s: Span)
    requires Recordable(spans) && s.End() <= TOP && s.size == 0
    ensures AddSpan(spans, s) == spans
  {
  }

  lemma AddSpanIsLast(spans: seq<Span>, s: Span)
    requires Recordable(spans) && s.End() <= TOP && 0 < s.size && (Merges(spans, s) || |spans| < CAPACITY)
    ensures var r := AddSpan(spans, s); r != [] && r[|r| - 1].End() == s.End()
  {
  }

  lemma {:induction false} AddSpanExplained(init: seq<Span>, before: seq<Span>, s: Span, r: Span, b: nat)
    requires Recordable(before) && s.End() <= TOP
    requires before == [] <==> LastNonempty(init) == -1
    requires before != [] ==> before[|before| - 1].End() == init[LastNonempty(init)].End()
    requires forall r, b: nat :: r in before && r.Has(b) ==> Explained(init, b)
    requires r in AddSpan(before, s) && r.Has(b)
    ensures Explained(init + [s], b)
  {
    var added := init + [s];
    if s.Has(b) {
      assert added[|init|].Has(b);
    } else if r in before {
      ExplainedGrows(init, s, b);
    } else {
      assert Merges(before, s) && r.start == before[|before| - 1].start;
      if before[|before| - 1].Has(b) {
        ExplainedGrows(init, s, b);
      } else {
        var i := LastNonempty(init);
        assert Follows(added, i, |init|);
        assert added[i].End() <= b < added[|init|].start;
      }
    }
  }

  lemma ExplainedGrows(added: seq<Span>, s: Span, b: nat)
    requires Explained(added, b)
    ensures Explained(added + [s], b)
  {
    if i :| 0 <= i < |added| && added[i].Has(b) {
      assert (added + [s])[i].Has(b);
    } else {
      var i: nat, k: nat :| Follows(added, i, k) && added[i].End() <= b < added[k].start <= added[i].End() + 4096;
      assert Follows(added + [s], i, k);
    }
  }

  /** What recording a span does, in numbers: an empty one is ignored; one that starts at most 4096 bytes
      behind the last region extends it; any other becomes a region of its own while there are fewer than
      six, and is ignored when there are six. */
  ghost predicate Records(spans: seq<Span>, address: nat, size: nat, after: seq<Span>) {
    var n := |spans|;
    if size == 0 then after == spans
    else if n > 0 && spans[n - 1].start + spans[n - 1].size <= address <= spans[n - 1].start + spans[n - 1].size + 4096 then
      |after| == n && after[..n - 1] == spans[..n - 1]
      && after[n - 1].start == spans[n - 1].start && after[n - 1].start + after[n - 1].size == address + size
    else after == if n < 6 then spans + [Span(address, size)] else spans
  }

  lemma AddSpanRecords(spans: seq<Span>, new_: Span)
    requires Recordable(spans) && new_.End() <= TOP
    ensures Records(spans, new_.start, new_.size, AddSpan(spans, new_))
  {
    if spans != [] { assert spans[|spans| - 1] in spans; }
  }

  // ---------------------------------------------------------------- searching for pages

  /** The overlap test of the code; both ends are inclusive. */
  predicate Touches(s: Span, a: nat) {
    a <= s.End() && s.start <= a + PAGE
  }

  ghost predicate Eligible(spans: seq<Span>, p: nat) {
    IsFrame(p) && forall i :: 0 <= i < |spans| ==> !Touches(spans[i], p)
  }

  /** `p` is the least eligible page at or above `start`. */
  ghost predicate IsLeastEligible(spans: seq<Span>, start: nat, p: nat) {
    start <= p && Eligible(spans, p) && forall q :: start <= q < p ==> !Eligible(spans, q)
  }

  /** The page lies wholly inside [lo, hi). */
  predicate Inside(p: nat, lo: nat, hi: nat) {
    lo <= p && p + PAGE <= hi
  }

  /** In numbers: a page is eligible if it is a multiple of 4096 and not 0, and every span ends before it
      or starts behind its end; a span that only meets it is too close. */
  lemma EligibleIff(spans: seq<Span>, p: nat)
    ensures Eligible(spans, p) <==>
            && p % 4096 == 0 && p != 0
            && forall i :: 0 <= i < |spans| ==> spans[i].start + spans[i].size < p || p + 4096 < spans[i].start
  {
    if Eligible(spans, p) {
      forall i | 0 <= i < |spans| ensures spans[i].start + spans[i].size < p || p + 4096 < spans[i].start {
        assert !Touches(spans[i], p);
      }
    }
  }

  /** An eligible page shares no byte with anything a recorded span covers. */
  lemma EligibleIsDisjoint(spans: seq<Span>, inner: Span, p: nat)
    requires CoveredBy(inner, spans) && Eligible(spans, p)
    ensures p + PAGE < inner.start || inner.End() < p
  {
    var i :| 0 <= i < |spans| && spans[i].Covers(inner);
    assert !Touches(spans[i], p);
  }

  function AlignUp(v: nat): (r: nat)
    ensures Aligned(r) && v <= r < v + PAGE
  {
    if v % PAGE == 0 then v else v + (PAGE - v % PAGE)
  }

  /** End of the first span that the page at `a` touches; 0 when it touches none. */
  function FirstHit(spans: seq<Span>, a: nat): nat {
    if spans == [] then 0
    else if Touches(spans[0], a) then spans[0].End()
    else FirstHit(spans[1..], a)
  }

  lemma {:induction false} HitIndex(spans: seq<Span>, a: nat) returns (i: int)
    requires forall s :: s in spans ==> 0 < s.size
    ensures FirstHit(spans, a) == 0 ==> forall k :: 0 <= k < |spans| ==> !Touches(spans[k], a)
    ensures FirstHit(spans, a) != 0 ==>
              0 <= i < |spans| && Touches(spans[i], a) && FirstHit(spans, a) == spans[i].End()
    ensures FirstHit(spans, a) != 0 ==> forall k :: 0 <= k < i ==> !Touches(spans[k], a)
  {
    i := 0;
    if spans != [] && !Touches(spans[0], a) {
      i := HitIndex(spans[1..], a);
      i := i + 1;
      var n := if FirstHit(spans, a) == 0 then |spans| else i;
      forall k | 0 <= k < n ensures !Touches(spans[k], a) {
        if k > 0 { assert spans[k] == spans[1..][k - 1]; }
      }
    } else if spans != [] {
      assert spans[0] in spans;
    }
  }

  /** In numbers: `end` is the end of the first span that the 4096 bytes from `a` on overlap or meet, or 0
      if there is none. */
  ghost predicate AnswersFirst(spans: seq<Span>, a: nat, end: nat) {
    if end == 0 then forall k :: 0 <= k < |spans| ==> spans[k].start + spans[k].size < a || a + 4096 < spans[k].start
    else exists i :: 0 <= i < |spans| && end == spans[i].start + spans[i].size && a <= end && spans[i].start <= a + 4096
                     && forall k :: 0 <= k < i ==> spans[k].start + spans[k].size < a || a + 4096 < spans[k].start
  }

  lemma {:induction false} FirstHitAnswers(spans: seq<Span>, a: nat)
    requires forall s :: s in spans ==> 0 < s.size
    ensures AnswersFirst(spans, a, FirstHit(spans, a))
  {
    var i := HitIndex(spans, a);
    if FirstHit(spans, a) == 0 {
      forall k | 0 <= k < |spans| ensures spans[k].start + spans[k].size < a || a + 4096 < spans[k].start {
        assert !Touches(spans[k], a);
      }
    } else {
      forall k | 0 <= k < i ensures spans[k].start + spans[k].size < a || a + 4096 < spans[k].start {
        assert !Touches(spans[k], a);
      }
    }
  }

  /** How many recorded spans end at or above `a`: the measure of the search. */
  function Ahead(spans: seq<Span>, a: nat): nat {
    if spans == [] then 0
    else (if a <= spans[0].End() then 1 else 0) + Ahead(spans[1..], a)
  }

  lemma {:induction false} AheadDrops(spans: seq<Span>, a: nat, b: nat)
    requires a <= b
    ensures Ahead(spans, b) <= Ahead(spans, a)
    ensures (exists i :: 0 <= i < |spans| && a <= spans[i].End() < b) ==> Ahead(spans, b) < Ahead(spans, a)
  {
    if spans != [] {
      AheadDrops(spans[1..], a, b);
      if i :| 0 <= i < |spans| && a <= spans[i].End() < b {
        if i > 0 {
          assert spans[1..][i - 1] == spans[i];
        }
      }
    }
  }

  /** The first page the search looks at. */
  function FirstPage(start: nat): (a: nat)
    ensures IsFrame(a) && start <= a
    ensures forall q :: start <= q < a ==> !IsFrame(q)
  {
    var a := AlignUp(if start == 0 then 1 else start);
    assert forall q :: start <= q < a ==> !IsFrame(q) by {
      forall q | start <= q < a && IsFrame(q) ensures false { AlignedGap(q, a); }
    }
    a
  }

  /** An eligible page lies at or before every span end still ahead that is a page boundary. */
  ghost predicate PageBeforeBoundaries(spans: seq<Span>, start: nat) {
    forall i :: 0 <= i < |spans| && Aligned(spans[i].End()) && FirstPage(start) <= spans[i].End() ==>
      exists p :: FirstPage(start) <= p <= spans[i].End() && Eligible(spans, p)
  }

  /** The search with a bound on the number of jumps. */
  ghost function Search(spans: seq<Span>, start: nat, jumps: nat): (r: Option<nat>)
    requires Recordable(spans)
    decreases jumps
  {
    var end := FirstHit(spans, FirstPage(start));
    if end == 0 then Some(FirstPage(start))
    else if jumps == 0 then None
    else Search(spans, AlignUp(end), jumps - 1)
  }

  /** The search from `start` comes to an end. */
  ghost predicate Ends(spans: seq<Span>, start: nat)
    requires Recordable(spans)
  {
    exists jumps: nat :: Search(spans, start, jumps).Some?
  }

  /** The overlap test is inclusive, so a page at which the first span that it touches ends sends the
      search back to itself. */
  predicate IsTrap(spans: seq<Span>, e: nat) {
    IsFrame(e) && FirstHit(spans, e) == e
  }

  lemma {:induction false} TrapHolds(spans: seq<Span>, e: nat, jumps: nat)
    requires Recordable(spans) && IsTrap(spans, e)
    ensures FirstPage(e) == e && Search(spans, e, jumps).None?
    decreases jumps
  {
    if jumps > 0 {
      TrapHolds(spans, e, jumps - 1);
    }
  }

  /** The search ends from every start if and only if no recorded span ends in a trap. */
  lemma EverySearchEndsIff(spans: seq<Span>)
    requires Recordable(spans)
    ensures (forall start: nat :: Ends(spans, start)) <==> (forall i :: 0 <= i < |spans| ==> !IsTrap(spans, spans[i].End()))
  {
    if forall i :: 0 <= i < |spans| ==> !IsTrap(spans, spans[i].End()) {
      forall start: nat ensures Ends(spans, start) {
        var _ := UntrappedEnds(spans, start);
      }
    } else {
      var i :| 0 <= i < |spans| && IsTrap(spans, spans[i].End());
      forall jumps: nat ensures Search(spans, spans[i].End(), jumps).None? {
        TrapHolds(spans, spans[i].End(), jumps);
      }
      assert !Ends(spans, spans[i].End());
    }
  }

  lemma {:induction false} UntrappedEnds(spans: seq<Span>, start: nat) returns (jumps: nat)
    requires Recordable(spans) && forall i :: 0 <= i < |spans| ==> !IsTrap(spans, spans[i].End())
    ensures Search(spans, start, jumps).Some?
    decreases if FirstPage(start) <= TOP then TOP + 1 - FirstPage(start) else 0
  {
    var a := FirstPage(start);
    var end := FirstHit(spans, a);
    jumps := 0;
    if end != 0 {
      var i := HitIndex(spans, a);
      assert !IsTrap(spans, spans[i].End());
      jumps := UntrappedEnds(spans, AlignUp(end));
      jumps := jumps + 1;
    }
  }

  /** A span of one page that starts and ends on page boundaries: the search never ends. */
  lemma {:induction false} SearchNeverEnds(jumps: nat)
    ensures Search([Span(0x1000, 0x1000)], 0x1000, jumps).None?
  {
    if jumps > 0 {
      TrapHolds([Span(0x1000, 0x1000)], 0x2000, jumps - 1);
    }
  }

  /** Regions that lie more than one page apart, in any order. */
  ghost predicate Separated(spans: seq<Span>) {
    forall i, j :: 0 <= i < j < |spans| ==>
      spans[i].End() + PAGE < spans[j].start || spans[j].End() + PAGE < spans[i].start
  }

  /** The same, in ascending order. */
  ghost predicate Ascending(spans: seq<Span>) {
    forall i, j :: 0 <= i < j < |spans| ==> spans[i].End() + PAGE < spans[j].start
  }

  /** Spans added in ascending order leave separated regions, in ascending order. */
  lemma AddSpanSeparated(spans: seq<Span>, new_: Span)
    requires Recordable(spans) && new_.End() <= TOP
    requires Ascending(spans) && (spans != [] ==> spans[|spans| - 1].End() <= new_.start)
    ensures Ascending(AddSpan(spans, new_)) && Separated(AddSpan(spans, new_))
  {
  }

  /** For separated regions the search ends if and only if no page boundary traps it. */
  lemma SearchEndsIff(spans: seq<Span>, start: nat)
    requires Recordable(spans) && Separated(spans)
    ensures Ends(spans, start) <==> PageBeforeBoundaries(spans, start)
  {
    if PageBeforeBoundaries(spans, start) {
      SearchFinds(spans, start);
    } else {
      var i :| 0 <= i < |spans| && Aligned(spans[i].End()) && FirstPage(start) <= spans[i].End() &&
               forall p :: FirstPage(start) <= p <= spans[i].End() ==> !Eligible(spans, p);
      forall jumps ensures Search(spans, start, jumps).None? {
        SearchTrapped(spans, start, i, jumps);
      }
    }
  }

  lemma {:induction false} SearchFinds(spans: seq<Span>, start: nat)
    requires Recordable(spans) && PageBeforeBoundaries(spans, start)
    ensures Search(spans, start, Ahead(spans, start)).Some?
    decreases Ahead(spans, start)
  {
    var a := FirstPage(start);
    var end := FirstHit(spans, a);
    if end != 0 {
      var i := HitIndex(spans, a);
      JumpAdvances(spans, start, i);
      SearchFinds(spans, AlignUp(end));
      SearchMore(spans, AlignUp(end), Ahead(spans, AlignUp(end)), Ahead(spans, start) - 1);
    }
  }

  lemma {:induction false} SearchMore(spans: seq<Span>, start: nat, jumps: nat, more: nat)
    requires Recordable(spans) && jumps <= more && Search(spans, start, jumps).Some?
    ensures Search(spans, start, more).Some?
    decreases jumps
  {
    var end := FirstHit(spans, FirstPage(start));
    if end != 0 { SearchMore(spans, AlignUp(end), jumps - 1, more - 1); }
  }

  lemma {:induction false} SearchTrapped(spans: seq<Span>, start: nat, i: nat, jumps: nat)
    requires Recordable(spans) && Separated(spans)
    requires i < |spans| && Aligned(spans[i].End()) && FirstPage(start) <= spans[i].End()
    requires forall p :: FirstPage(start) <= p <= spans[i].End() ==> !Eligible(spans, p)
    ensures Search(spans, start, jumps).None?
    decreases jumps
  {
    var a, e := FirstPage(start), spans[i].End();
    assert !Eligible(spans, a);
    var end := FirstHit(spans, a);
    var j := HitIndex(spans, a);
    if jumps > 0 {
      assert j != i ==> spans[j].End() + PAGE < spans[i].start;
      assert a <= end <= e;
      assert FirstPage(AlignUp(end)) == AlignUp(end);
      assert AlignUp(end) <= e;
      SearchTrapped(spans, AlignUp(end), i, jumps - 1);
    }
  }

  /** A jump over a touched span makes the measure smaller and keeps the search from being trapped. */
  lemma {:induction false} JumpAdvances(spans: seq<Span>, start: nat, i: nat)
    requires PageBeforeBoundaries(spans, start) && i < |spans| && Touches(spans[i], FirstPage(start))
    ensures var next := AlignUp(spans[i].End());
            Ahead(spans, next) < Ahead(spans, start) && PageBeforeBoundaries(spans, next)
  {
    var a, next := FirstPage(start), AlignUp(spans[i].End());
    forall q | a <= q < next && Eligible(spans, q) ensures false {
      JumpSkipsTouching(spans[i], a, q);
    }
    assert forall p :: a <= p <= spans[i].End() ==> Touches(spans[i], p);
    assert !Aligned(spans[i].End());
    AheadDrops(spans, start, a);
    AheadDrops(spans, a, next);
    assert a <= FirstPage(next);
    forall j | 0 <= j < |spans| && Aligned(spans[j].End()) && FirstPage(next) <= spans[j].End()
      ensures exists p :: FirstPage(next) <= p <= spans[j].End() && Eligible(spans, p)
    {
      var p :| a <= p <= spans[j].End() && Eligible(spans, p);
      assert FirstPage(next) <= p;
    }
  }

  /** One jump of the search skips only pages that touch the span it jumps over. */
  lemma JumpSkipsTouching(s: Span, a: nat, q: nat)
    requires Touches(s, a)
    requires Aligned(q) && a <= q < AlignUp(s.End())
    ensures Touches(s, q)
  {
    AlignedGap(q, AlignUp(s.End()));
  }

  /** The search for the least eligible page may restart at the end of any span it touched. */
  lemma JumpKeepsLeast(spans: seq<Span>, start: nat, i: nat, page: nat)
    requires i < |spans| && Touches(spans[i], FirstPage(start))
    requires IsLeastEligible(spans, AlignUp(spans[i].End()), page)
    ensures IsLeastEligible(spans, start, page)
  {
    var a := FirstPage(start);
    forall q | start <= q < page ensures !Eligible(spans, q) {
      if IsFrame(q) && a <= q < AlignUp(spans[i].End()) {
        JumpSkipsTouching(spans[i], a, q);
      }
    }
  }

  lemma {:induction false} SearchJumps(spans: seq<Span>, start: nat)
    requires Recordable(spans) && PageBeforeBoundaries(spans, start)
    requires FirstHit(spans, FirstPage(start)) != 0
    ensures var next := AlignUp(FirstHit(spans, FirstPage(start)));
            && next <= TOP && Ahead(spans, next) < Ahead(spans, start) && PageBeforeBoundaries(spans, next)
            && forall page :: IsLeastEligible(spans, next, page) ==> IsLeastEligible(spans, start, page)
  {
    var end := FirstHit(spans, FirstPage(start));
    var i := HitIndex(spans, FirstPage(start));
    JumpAdvances(spans, start, i);
    forall page | IsLeastEligible(spans, AlignUp(end), page) ensures IsLeastEligible(spans, start, page) {
      JumpKeepsLeast(spans, start, i, page);
    }
  }

  /** A search that ends goes on to later pages only, and its first jump keeps the least page. */
  lemma {:induction false} EndsJump(spans: seq<Span>, start: nat)
    requires Recordable(spans) && Ends(spans, start)
    requires FirstHit(spans, FirstPage(start)) != 0
    ensures var next := AlignUp(FirstHit(spans, FirstPage(start)));
            && FirstPage(start) < next <= TOP && FirstPage(next) == next && Ends(spans, next)
            && forall page :: IsLeastEligible(spans, next, page) ==> IsLeastEligible(spans, start, page)
  {
    var a := FirstPage(start);
    var end := FirstHit(spans, a);
    var i := HitIndex(spans, a);
    var jumps: nat :| Search(spans, start, jumps).Some?;
    assert Search(spans, AlignUp(end), jumps - 1).Some?;
    if end == a {
      TrapHolds(spans, a, jumps - 1);
      assert false;
    }
    forall page | IsLeastEligible(spans, AlignUp(end), page) ensures IsLeastEligible(spans, start, page) {
      JumpKeepsLeast(spans, start, i, page);
    }
  }

  lemma {:induction false} SearchStops(spans: seq<Span>, start: nat)
    requires Recordable(spans) && FirstHit(spans, FirstPage(start)) == 0
    ensures IsLeastEligible(spans, start, FirstPage(start))
  {
    var _ := HitIndex(spans, FirstPage(start));
  }

  /** The spans recorded so far, in the two parallel arrays of the source. */
  class SpanTable {
    const addresses: array<u64>
    const sizes: array<u64>
    var current: int
    ghost var spans: seq<Span>

    ghost predicate Valid()
      reads this, addresses, sizes
    {
      && addresses != sizes && addresses.Length == CAPACITY && sizes.Length == CAPACITY
      && -1 <= current && |spans| == current + 1
      && Recordable(spans)
      && forall i :: 0 <= i < |spans| ==> spans[i] == Span(addresses[i], sizes[i])
    }

    constructor ()
      ensures Valid() && spans == []
      ensures fresh(addresses) && fresh(sizes)
    {
      addresses := new u64[CAPACITY];
      sizes := new u64[CAPACITY];
      current := -1;
      spans := [];
    }

    /** Records a span, merging it into the last one when it follows closely. */
    method Add(address: u64, size: u64)
      requires Valid() && address + size <= TOP
      modifies this, addresses, sizes
      ensures Valid()
      ensures spans == AddSpan(old(spans), Span(address, size)) && Records(old(spans), address, size, spans)
    {
      AddSpanRecords(spans, Span(address, size));
      if size == 0 {
        return;
      }
      var reg := current;
      if reg == -1 {
        reg := 0;
        addresses[reg] := address;
        sizes[reg] := size;
        current := reg;
        spans := [Span(address, size)];
        return;
      }
      var end := addresses[reg] + sizes[reg];
      assert spans[reg] in spans;
      if Sub64(address, end) <= PAGE {
        sizes[reg] := sizes[reg] + (size + (address - end));
        spans := spans[reg := Span(addresses[reg], sizes[reg])];
      } else {
        reg := reg + 1;
        if reg >= CAPACITY {
          return;
        }
        addresses[reg] := address;
        sizes[reg] := size;
        current := reg;
        spans := spans + [Span(address, size)];
      }
    }

    /** The end of the first recorded span that the page at `a` touches, or 0. */
    method OkAddress(a: u64) returns (end: u64)
      requires Valid() && a <= TOP
      ensures end == FirstHit(spans, a) && AnswersFirst(spans, a, end)
    {
      FirstHitAnswers(spans, a);
      var i := 0;
      while i <= current
        invariant 0 <= i <= current + 1
        invariant forall j :: 0 <= j < i ==> !Touches(spans[j], a)
        invariant FirstHit(spans[i..], a) == FirstHit(spans, a)
      {
        assert spans[i] in spans && spans[i..][0] == spans[i] && spans[i..][1..] == spans[i + 1..];
        var start, spanEnd := addresses[i], addresses[i] + sizes[i];
        if a <= spanEnd && start <= a + PAGE {
          return spanEnd;
        }
        i := i + 1;
      }
      return 0;
    }

    /** The least eligible page at or above `start`, whenever the search ends at all. */
    method FindFreePage(start: u64) returns (page: u64)
      requires Valid() && start <= TOP
      requires Ends(spans, start)
      ensures page <= TOP && IsLeastEligible(spans, start, page)
      decreases TOP - FirstPage(start)
    {
      var a := AlignUp(if start == 0 then 1 else start);
      var end := OkAddress(a);
      if end != 0 {
        EndsJump(spans, start);
        page := FindFreePage(AlignUp(end));
      } else {
        page := a;
        SearchStops(spans, start);
      }
    }
  }
}
