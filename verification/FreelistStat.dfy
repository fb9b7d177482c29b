/** The freelist report of `mdb_stat -ff` and `-fff`: the longest run of consecutive page numbers of
    a freelist record, and the record printed as runs (mdb_stat.c). */
module FreelistStat {
  import opened CTypes
  import opened MidlMerge

  const SSIZE_LIMIT := 0x8000_0000_0000_0000

  ghost predicate StrictlyDescending(s: seq<MdbId>) {
    forall p, q :: 0 <= p < q < |s| ==> s[p] > s[q]
  }

  /** What the report calls a good sequence: strictly descending, all pages above the two meta pages. */
  ghost predicate GoodSequence(s: seq<MdbId>) {
    StrictlyDescending(s) && forall p :: 0 <= p < |s| ==> s[p] > 1
  }

  /** `len` consecutive page numbers, the smallest of them at index `i`. */
  ghost predicate RunAt(s: seq<MdbId>, i: int, len: int) {
    0 <= i < |s| && 0 <= len <= i + 1 && forall p :: i - len < p <= i ==> s[p] as int == s[i] as int + (i - p)
  }

  ghost predicate NoLongerRun(s: seq<MdbId>, n: int) {
    forall i, len :: RunAt(s, i, len) ==> len <= n
  }

  /** `n` is the length of the longest run of consecutive pages. */
  ghost predicate IsLongestRun(s: seq<MdbId>, n: int) {
    NoLongerRun(s, n) && (if s == [] then n == 0 else exists i :: RunAt(s, i, n))
  }

  lemma LongestRunIsUnique(s: seq<MdbId>, n: int, n': int)
    requires IsLongestRun(s, n) && IsLongestRun(s, n')
    ensures n == n'
  {
  }

  /** In a strictly descending list, entries `d` positions apart differ by at least `d`. */
  lemma {:induction false} Gap(s: seq<MdbId>, p: int, q: int)
    requires StrictlyDescending(s) && 0 <= p <= q < |s|
    ensures s[p] as int >= s[q] as int + (q - p)
    decreases q - p
  {
    if p < q { Gap(s, p + 1, q); }
  }

  /** The test of the inner loop: the entry `span` places further is the page number expected there.
      The sum may wrap. */
  ghost predicate Continues(s: seq<MdbId>, i: int, span: int) {
    0 <= span <= i < |s| && s[i - span] as int == (s[i] as int + span) % SIZE_LIMIT
  }

  /** Testing one entry is enough: if the entry `len` positions further is `len` larger, all the
      entries between are consecutive. The sum may wrap in C; in such a list it does not. */
  lemma OneTestIsEnough(s: seq<MdbId>, i: int, len: int)
    requires StrictlyDescending(s) && Continues(s, i, len)
    ensures RunAt(s, i, len + 1)
  {
    Gap(s, i - len, i);
    assert s[i] as int + len < SIZE_LIMIT;
    forall p | i - len <= p <= i ensures s[p] as int == s[i] as int + (i - p) {
      Gap(s, i - len, p);
      Gap(s, p, i);
    }
  }

  lemma LongRunPassesTest(s: seq<MdbId>, i: int, len: int, span: int)
    requires RunAt(s, i, len) && 0 <= span < len
    ensures Continues(s, i, span)
  {
  }

  // ---------------------------------------------------------------- first pass: the longest run

  /** The array holds the entries `s` behind its count. */
  ghost predicate Lists(iptr: array<MdbId>, s: seq<MdbId>)
    reads iptr
  {
    |s| < iptr.Length && forall k :: 0 <= k < |s| ==> iptr[k + 1] == s[k]
  }

  lemma NextPage(x: int, span: int)
    ensures ((x + span) % SIZE_LIMIT + 1) % SIZE_LIMIT == (x + (span + 1)) % SIZE_LIMIT
  {
  }

  /** The inner loop at index `i`: `span` only ever grows. */
  method Extend(iptr: array<MdbId>, i: int, span0: int, ghost s: seq<MdbId>, ghost descending: bool, ghost w0: int)
    returns (span: int, ghost w: int, ghost steps: int)
    requires Lists(iptr, s) && 0 <= i < |s| && 0 <= span0
    requires Witnessed(s, descending, w0, span0) && (descending ==> StrictlyDescending(s))
    ensures span == span0 + steps && 0 <= steps
    ensures forall len :: RunAt(s, i, len) ==> len <= span
    ensures Witnessed(s, descending, w, span)
  {
    span, w, steps := span0, w0, 0;
    var pg := (iptr[i + 1] as int + span) % SIZE_LIMIT;
    while i >= span && iptr[i - span + 1] as int == pg
      invariant span == span0 + steps && 0 <= steps && (span <= i + 1 || span == span0)
      invariant pg == (s[i] as int + span) % SIZE_LIMIT
      invariant Witnessed(s, descending, w, span)
      decreases i + 1 - span
    {
      assert Continues(s, i, span);
      WitnessGrows(s, descending, i, span);
      NextPage(s[i], span);
      w := i;
      span := span + 1;
      pg := (pg + 1) % SIZE_LIMIT;
      steps := steps + 1;
    }
    assert i >= span ==> s[i - span] == iptr[i - span + 1];
    ScanStopped(s, i, span);
  }

  /** If the list is in order, the span found so far is the length of the run at `w`. */
  ghost predicate Witnessed(s: seq<MdbId>, descending: bool, w: int, span: int) {
    descending && span > 0 ==> RunAt(s, w, span)
  }

  lemma WitnessGrows(s: seq<MdbId>, descending: bool, i: int, span: int)
    requires descending ==> StrictlyDescending(s)
    requires Continues(s, i, span)
    ensures Witnessed(s, descending, i, span + 1)
  {
    if descending { OneTestIsEnough(s, i, span); }
  }

  lemma ScanStopped(s: seq<MdbId>, i: int, span: int)
    requires 0 <= i < |s| && 0 <= span && !Continues(s, i, span)
    ensures forall len :: RunAt(s, i, len) ==> len <= span
  {
    forall len | RunAt(s, i, len) ensures len <= span {
      if len > span { LongRunPassesTest(s, i, len, span); }
    }
  }

  /** No run that starts behind index `i` is longer than `span`. */
  ghost predicate Covered(s: seq<MdbId>, i: int, span: int) {
    forall k, len :: i < k && RunAt(s, k, len) ==> len <= span
  }

  lemma CoverOneMore(s: seq<MdbId>, i: int, span0: int, span: int)
    requires Covered(s, i, span0) && span0 <= span
    requires forall len :: RunAt(s, i, len) ==> len <= span
    ensures Covered(s, i - 1, span)
  {
  }

  lemma AllCovered(s: seq<MdbId>, span: int, w: int)
    requires Covered(s, -1, span) && 0 <= span
    requires s != [] ==> span > 0 && Witnessed(s, StrictlyDescending(s), w, span)
    requires s == [] ==> span == 0
    ensures NoLongerRun(s, span)
    ensures StrictlyDescending(s) ==> IsLongestRun(s, span)
  {
  }

  /** The scan visits every index once and never restarts `span`: the inner loop makes `span` steps in
      all. For every record it never reports less than the longest run; for a strictly descending one it
      reports exactly that; and it flags exactly the records that are not good sequences. */
  method MaxSpan(iptr: array<MdbId>) returns (span: int, bad: bool, ghost steps: int)
    requires IsList(iptr[..]) && iptr[0] < SSIZE_LIMIT
    ensures NoLongerRun(Entries(iptr[..]), span)
    ensures StrictlyDescending(Entries(iptr[..])) ==> IsLongestRun(Entries(iptr[..]), span)
    ensures bad <==> !GoodSequence(Entries(iptr[..]))
    ensures steps == span
  {
    ghost var s := Entries(iptr[..]);
    ghost var descending := StrictlyDescending(s);
    ghost var w := 0;
    span, bad, steps := 0, false, 0;
    var prev: MdbId := 1;
    var i: int := iptr[0] as int - 1;
    while i >= 0
      invariant -1 <= i < |s| && |s| == iptr[0] as int && 0 <= span == steps
      invariant prev == if i < |s| - 1 then s[i + 1] else 1
      invariant bad <==> !GoodSequence(s[i + 1..])
      invariant Covered(s, i, span) && Witnessed(s, descending, w, span)
      invariant if i < |s| - 1 then span > 0 else span == 0
    {
      var pg := iptr[i + 1];
      assert s[i..] == [pg] + s[i + 1..];
      LongerIsGood(s[i + 1..], pg, prev);
      if pg <= prev {
        bad := true;
      }
      prev := pg;
      ghost var more, before := 0, span;
      span, w, more := Extend(iptr, i, span, s, descending, w);
      steps := steps + more;
      assert RunAt(s, i, 1);
      CoverOneMore(s, i, before, span);
      i := i - 1;
    }
    assert s[0..] == s;
    AllCovered(s, span, w);
  }

  lemma LongerIsGood(s: seq<MdbId>, pg: MdbId, prev: MdbId)
    requires prev == if s == [] then 1 else s[0]
    ensures GoodSequence([pg] + s) <==> GoodSequence(s) && pg > prev
  {
    if GoodSequence(s) && pg > prev { GoodWithFirst(pg, s); }
    if GoodSequence([pg] + s) { GoodWithoutFirst(pg, s); }
  }

  lemma GoodWithFirst(pg: MdbId, s: seq<MdbId>)
    requires GoodSequence(s) && pg > if s == [] then 1 else s[0]
    ensures GoodSequence([pg] + s)
  {
    var u := [pg] + s;
    forall p, q | 0 <= p < q < |u| ensures u[p] > u[q] {
      assert u[q] == s[q - 1];
      if p > 0 { assert u[p] == s[p - 1]; }
    }
  }

  lemma GoodWithoutFirst(pg: MdbId, s: seq<MdbId>)
    requires GoodSequence([pg] + s)
    ensures GoodSequence(s) && pg > if s == [] then 1 else s[0]
  {
    var u := [pg] + s;
    assert u[0] == pg && u[1..] == s;
    forall p, q | 0 <= p < q < |s| ensures s[p] > s[q] {
      assert u[p + 1] > u[q + 1];
    }
    forall p | 0 <= p < |s| ensures s[p] > 1 {
      assert u[p + 1] > 1;
    }
    if s != [] { assert u[0] > u[1]; }
  }

  // ---------------------------------------------------------------- second pass: the printed runs

  /** One printed line: first page and length. */
  datatype Run = Run(pg: MdbId, span: nat)

  /** How far the run that starts at index `j` and reaches back by `span` entries goes on. */
  ghost function RunLength(s: seq<MdbId>, j: nat, span: nat): (len: nat)
    requires j < |s| && 1 <= span <= j + 1
    ensures span <= len <= j + 1
    decreases j + 1 - span
  {
    if span <= j && s[j - span] as int == (s[j] as int + span) % SIZE_LIMIT
    then RunLength(s, j, span + 1) else span
  }

  /** The entries of the run follow on from each other, and the one behind its end does not. */
  lemma {:induction false} RunLengthMeans(s: seq<MdbId>, j: nat, span: nat)
    requires j < |s| && 1 <= span <= j + 1
    ensures var len := RunLength(s, j, span);
      && (len <= j ==> s[j - len] as int != (s[j] as int + len) % SIZE_LIMIT)
      && forall p :: j - len < p <= j - span ==> s[p] as int == (s[j] as int + (j - p)) % SIZE_LIMIT
    decreases j + 1 - span
  {
    if span <= j && s[j - span] as int == (s[j] as int + span) % SIZE_LIMIT {
      RunLengthMeans(s, j, span + 1);
    }
  }

  lemma RunEntry(s: seq<MdbId>, j: nat, k: nat)
    requires j < |s| && 1 <= k < RunLength(s, j, 1)
    ensures Continues(s, j, k)
  {
    RunLengthMeans(s, j, 1);
    assert j - k <= j - 1;
  }

  /** The lines printed for the first `n` entries, from the end of the list to its start. */
  ghost function Runs(s: seq<MdbId>, n: nat): seq<Run>
    requires n <= |s|
  {
    if n == 0 then []
    else var len := RunLength(s, n - 1, 1); [Run(s[n - 1], len)] + Runs(s, n - len)
  }

  /** Counts one line: from index `j0` back while each entry is one larger than the one behind it. */
  method PrintOne(iptr: array<MdbId>, j0: int) returns (j: int, run: Run)
    requires IsList(iptr[..]) && 0 <= j0 < iptr[0] as int
    ensures var s := Entries(iptr[..]); run == Run(s[j0], RunLength(s, j0, 1)) && j == j0 - run.span
  {
    ghost var s := Entries(iptr[..]);
    var pg, span := iptr[j0 + 1], 1;
    j := j0 - 1;
    while j >= 0 && iptr[j + 1] as int == (pg as int + span) % SIZE_LIMIT
      invariant 1 <= span <= j0 + 1 && j == j0 - span
      invariant RunLength(s, j0, 1) == RunLength(s, j0, span)
    {
      assert s[j0 - span] == iptr[j + 1];
      span := span + 1;
      j := j - 1;
    }
    assert span <= j0 ==> s[j0 - span] == iptr[j + 1];
    run := Run(pg, span);
  }

  method PrintRuns(iptr: array<MdbId>) returns (out: seq<Run>)
    requires IsList(iptr[..]) && iptr[0] < SSIZE_LIMIT
    ensures out == Runs(Entries(iptr[..]), iptr[0])
  {
    ghost var s := Entries(iptr[..]);
    out := [];
    var j: int := iptr[0] as int - 1;
    while j >= 0
      invariant -1 <= j < |s|
      invariant Runs(s, |s|) == out + Runs(s, j + 1)
    {
      ghost var j0 := j;
      var run;
      j, run := PrintOne(iptr, j);
      RunsUnfold(s, j0, j, run, out);
      out := out + [run];
    }
  }

  lemma RunsUnfold(s: seq<MdbId>, j0: nat, j: int, run: Run, out: seq<Run>)
    requires j0 < |s| && run == Run(s[j0], RunLength(s, j0, 1)) && j == j0 - run.span
    ensures out + Runs(s, j0 + 1) == out + [run] + Runs(s, j + 1)
  {
    var more := Runs(s, j + 1);
    assert Runs(s, j0 + 1) == [run] + more;
    assert out + ([run] + more) == out + [run] + more;
  }

  ghost function Expand(runs: seq<Run>): seq<MdbId> {
    if runs == [] then []
    else seq(runs[0].span, t => (runs[0].pg as int + t) % SIZE_LIMIT) + Expand(runs[1..])
  }

  ghost function Reversed(s: seq<MdbId>, n: nat): seq<MdbId>
    requires n <= |s|
  {
    seq(n, t requires 0 <= t < n => s[n - 1 - t])
  }

  /** The first line, from index `n - 1` on, stands for the last entries of the record. */
  lemma FirstLineExpands(s: seq<MdbId>, n: nat, len: nat)
    requires 0 < n <= |s| && len == RunLength(s, n - 1, 1)
    ensures seq(len, t => (s[n - 1] as int + t) % SIZE_LIMIT) + Reversed(s, n - len) == Reversed(s, n)
  {
    var first, rest := seq(len, t => (s[n - 1] as int + t) % SIZE_LIMIT), Reversed(s, n - len);
    forall t | 0 <= t < n ensures (first + rest)[t] == Reversed(s, n)[t] {
      if 0 < t < len { RunEntry(s, n - 1, t); }
    }
  }

  /** The printed lines stand for exactly the record, smallest page first. */
  lemma {:induction false} RunsExpandToList(s: seq<MdbId>, n: nat)
    requires n <= |s|
    ensures Expand(Runs(s, n)) == Reversed(s, n)
  {
    if n > 0 {
      var len := RunLength(s, n - 1, 1);
      RunsExpandToList(s, n - len);
      assert Runs(s, n)[1..] == Runs(s, n - len);
      FirstLineExpands(s, n, len);
    }
  }

  /** No two neighbouring lines could have been printed as one. */
  ghost predicate Maximal(runs: seq<Run>) {
    && (forall k :: 0 <= k < |runs| ==> runs[k].span >= 1)
    && forall k :: 0 < k < |runs| ==> runs[k].pg as int != (runs[k - 1].pg as int + runs[k - 1].span) % SIZE_LIMIT
  }

  lemma MaximalOneMore(run: Run, more: seq<Run>)
    requires Maximal(more) && run.span >= 1
    requires more != [] ==> more[0].pg as int != (run.pg as int + run.span) % SIZE_LIMIT
    ensures Maximal([run] + more)
  {
  }

  lemma {:induction false} RunsAreMaximal(s: seq<MdbId>, n: nat)
    requires n <= |s|
    ensures Maximal(Runs(s, n))
    ensures n > 0 ==> Runs(s, n) != [] && Runs(s, n)[0].pg == s[n - 1]
  {
    if n > 0 {
      var len := RunLength(s, n - 1, 1);
      RunLengthMeans(s, n - 1, 1);
      RunsAreMaximal(s, n - len);
      MaximalOneMore(Run(s[n - 1], len), Runs(s, n - len));
    }
  }

  ghost function MaxLength(runs: seq<Run>): nat {
    if runs == [] then 0
    else var rest := MaxLength(runs[1..]); if runs[0].span > rest then runs[0].span else rest
  }

  lemma {:induction false} PrintedRunIsRun(s: seq<MdbId>, j: nat, len: nat)
    requires StrictlyDescending(s) && j < |s| && 1 <= len <= RunLength(s, j, 1)
    ensures RunAt(s, j, len)
  {
    if len > 1 {
      RunEntry(s, j, len - 1);
      OneTestIsEnough(s, j, len - 1);
    }
  }

  /** A run that reached over the end of a line starting at `j` would have lengthened the line. */
  lemma RunAcrossLine(s: seq<MdbId>, j: nat, line: nat, i: int, len: int)
    requires RunAt(s, j, line) && line <= j && RunAt(s, i, len)
    requires j - line < i <= j && i - len < j - line
    ensures s[j - line] as int == (s[j] as int + line) % SIZE_LIMIT
  {
    var q := j - line;
    assert s[q] as int == s[i] as int + (i - q);
    assert s[i] as int == s[j] as int + (j - i);
  }

  lemma RunStaysInLine(s: seq<MdbId>, j: nat, i: int, len: int)
    requires StrictlyDescending(s) && j < |s| && RunAt(s, i, len)
    requires j - RunLength(s, j, 1) < i <= j
    ensures len <= RunLength(s, j, 1)
  {
    var line := RunLength(s, j, 1);
    PrintedRunIsRun(s, j, line);
    RunLengthMeans(s, j, 1);
    if line <= j && i - len < j - line { RunAcrossLine(s, j, line, i, len); }
  }

  /** The length of the longest line, without the list of lines. */
  ghost function LongestLine(s: seq<MdbId>, n: nat): nat
    requires n <= |s|
  {
    if n == 0 then 0
    else
      var line := RunLength(s, n - 1, 1);
      var rest := LongestLine(s, n - line);
      if line > rest then line else rest
  }

  lemma LongestLineStep(s: seq<MdbId>, n: nat)
    requires 0 < n <= |s|
    ensures var line := RunLength(s, n - 1, 1);
      && LongestLine(s, n) >= line && LongestLine(s, n) >= LongestLine(s, n - line)
      && (LongestLine(s, n) == line || (LongestLine(s, n) == LongestLine(s, n - line) && n > line))
  {
  }

  lemma MaxLengthOneMore(run: Run, more: seq<Run>)
    ensures MaxLength([run] + more) == if run.span > MaxLength(more) then run.span else MaxLength(more)
  {
    assert ([run] + more)[1..] == more;
  }

  lemma {:induction false} LongestLineIsMaxLength(s: seq<MdbId>, n: nat)
    requires n <= |s|
    ensures LongestLine(s, n) == MaxLength(Runs(s, n))
  {
    if n > 0 {
      var line := RunLength(s, n - 1, 1);
      LongestLineIsMaxLength(s, n - line);
      MaxLengthOneMore(Run(s[n - 1], line), Runs(s, n - line));
    }
  }

  /** Every run of consecutive pages lies inside one printed line. */
  lemma {:induction false} LinesCoverEveryRun(s: seq<MdbId>, n: nat, longest: nat, i: int, len: int)
    requires StrictlyDescending(s) && n <= |s| && i < n && RunAt(s, i, len)
    requires longest == LongestLine(s, n)
    ensures len <= longest
    decreases n
  {
    var line := RunLength(s, n - 1, 1);
    LongestLineStep(s, n);
    if i <= n - 1 - line {
      LinesCoverEveryRun(s, n - line, LongestLine(s, n - line), i, len);
    } else {
      RunStaysInLine(s, n - 1, i, len);
    }
  }

  lemma {:induction false} LongestLineIsRun(s: seq<MdbId>, n: nat) returns (i: int)
    requires StrictlyDescending(s) && 0 < n <= |s|
    ensures RunAt(s, i, LongestLine(s, n))
  {
    var line := RunLength(s, n - 1, 1);
    LongestLineStep(s, n);
    if LongestLine(s, n) == line {
      PrintedRunIsRun(s, n - 1, line);
      i := n - 1;
    } else {
      i := LongestLineIsRun(s, n - line);
    }
  }

  /** The two passes agree: on a strictly descending record the longest printed line has the length
      that the first pass reports. */
  lemma PassesAgree(s: seq<MdbId>, span: int)
    requires StrictlyDescending(s) && IsLongestRun(s, span)
    ensures span == MaxLength(Runs(s, |s|))
  {
    var longest := LongestLine(s, |s|);
    LongestLineIsMaxLength(s, |s|);
    forall i, len | RunAt(s, i, len) ensures len <= longest {
      LinesCoverEveryRun(s, |s|, longest, i, len);
    }
    if s != [] { var i := LongestLineIsRun(s, |s|); }
    LongestRunIsUnique(s, span, longest);
  }
}
