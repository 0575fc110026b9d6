/**
  The boot marker driver in place: the list and its index, and the report of all markers that is
  read piecewise through sysfs (bootkpi_reader).
 */
module BootReports {
  import opened Common
  import opened BootMarkers
  import BootRuns
  import Counting
  import PageAllocation

  const TS_WHOLE_NUM_WIDTH: nat := 8
  const TS_PRECISION_WIDTH: nat := 3
  const MARKER_TOTAL_LEN: nat := 55
  const TIMER_KHZ: nat := 32768

  // ---------------------------------------------------------------------------------------
  // Formatting
  // ---------------------------------------------------------------------------------------

  function Repeat(c: char, n: nat): (s: string)
    ensures |s| == n
  {
    seq(n, _ => c)
  }

  function PadRight(s: string, width: nat): string {
    if |s| < width then s + Repeat(' ', width - |s|) else s
  }

  function PadLeft(s: string, width: nat, c: char): string {
    if |s| < width then Repeat(c, width - |s|) + s else s
  }

  function Decimal(n: nat): string {
    if n < 10 then ['0' + n as char] else Decimal(n / 10) + ['0' + (n % 10) as char]
  }

  function DigitOf(c: char): nat {
    if '0' <= c <= '9' then (c - '0') as nat else 0
  }

  /** The number a reader sees in a field; padding counts as zero. */
  function NumberIn(s: string): nat {
    if s == "" then 0 else 10 * NumberIn(s[..|s| - 1]) + DigitOf(s[|s| - 1])
  }

  function Pow10(k: nat): (p: nat)
    ensures p >= 1
  {
    if k == 0 then 1 else 10 * Pow10(k - 1)
  }

  /** A number is printed in at most `k` digits exactly when it is below ten to the `k`. */
  lemma {:induction false} DecimalWidth(n: nat, k: nat)
    requires k >= 1
    ensures |Decimal(n)| <= k <==> n < Pow10(k)
  {
    if n >= 10 {
      if k == 1 {
        assert |Decimal(n / 10)| >= 1;
        assert Pow10(1) == 10;
      } else {
        DecimalWidth(n / 10, k - 1);
      }
    } else {
      assert Pow10(k) == 10 * Pow10(k - 1);
    }
  }

  lemma {:induction false} DecimalReadsBack(n: nat)
    ensures NumberIn(Decimal(n)) == n
  {
    var c := '0' + (n % 10) as char;
    assert DigitOf(c) == n % 10;
    if n >= 10 {
      DecimalReadsBack(n / 10);
      var d := Decimal(n / 10);
      assert (d + [c])[..|d + [c]| - 1] == d;
    } else {
      assert [c][..0] == "";
      assert NumberIn([c]) == 10 * NumberIn([c][..0]) + DigitOf(c);
    }
  }

  /** Padding in front does not change the number that is read. */
  lemma {:induction false} PaddingIsZero(c: char, n: nat, s: string)
    requires DigitOf(c) == 0
    ensures NumberIn(Repeat(c, n) + s) == NumberIn(s)
    decreases n + |s|
  {
    var t := Repeat(c, n) + s;
    if s != "" {
      assert t[..|t| - 1] == Repeat(c, n) + s[..|s| - 1];
      PaddingIsZero(c, n, s[..|s| - 1]);
    } else if n > 0 {
      assert t[..|t| - 1] == Repeat(c, n - 1) + s;
      PaddingIsZero(c, n - 1, s);
    }
  }

  function WholeNum(timer: nat): nat {
    timer / TIMER_KHZ
  }

  function Precision(timer: nat): nat {
    timer % TIMER_KHZ * 1000 / TIMER_KHZ
  }

  /** One line of the report. */
  function Line(marker: Marker): string {
    PadRight(marker.name, MARKER_STRING_WIDTH)
    + PadLeft(Decimal(WholeNum(marker.timer)), TS_WHOLE_NUM_WIDTH, ' ') + "."
    + PadLeft(Decimal(Precision(marker.timer)), TS_PRECISION_WIDTH, '0') + " s\n"
  }

  lemma PrecisionWidth(timer: nat)
    ensures |Decimal(Precision(timer))| <= TS_PRECISION_WIDTH
  {
    assert Precision(timer) < 1000;
    assert Pow10(3) == 10 * Pow10(2) && Pow10(2) == 10 * Pow10(1) && Pow10(1) == 10;
    DecimalWidth(Precision(timer), TS_PRECISION_WIDTH);
  }

  /**
    A stored marker's line has exactly the width the buffer is sized for if and only if the seconds
    fit their field.
   */
  lemma LineWidth(marker: Marker)
    requires |marker.name| < MARKER_STRING_WIDTH
    ensures |Line(marker)| == MARKER_TOTAL_LEN <==> WholeNum(marker.timer) < Pow10(TS_WHOLE_NUM_WIDTH)
    ensures |Line(marker)| >= MARKER_TOTAL_LEN
  {
    DecimalWidth(WholeNum(marker.timer), TS_WHOLE_NUM_WIDTH);
    PrecisionWidth(marker.timer);
  }

  lemma PadReadsBack(s: string, width: nat, c: char)
    requires DigitOf(c) == 0
    ensures NumberIn(PadLeft(s, width, c)) == NumberIn(s)
  {
    if |s| < width {
      PaddingIsZero(c, width - |s|, s);
    }
  }

  lemma Columns(name: string, whole: string, precision: string)
    requires |name| == 40 && |whole| == 8 && |precision| == 3
    ensures var line := name + whole + "." + precision + " s\n";
      && |line| == 55 && line[..40] == name && line[40..48] == whole && line[48] == '.' && line[49..52] == precision
      && line[52..] == " s\n"
  {
  }

  /** The name and the blanks behind it, the whole seconds and the milliseconds can be read back from their columns. */
  lemma LineReadsBack(marker: Marker)
    requires |marker.name| < MARKER_STRING_WIDTH && WholeNum(marker.timer) < Pow10(TS_WHOLE_NUM_WIDTH)
    ensures |Line(marker)| == MARKER_TOTAL_LEN && marker.name <= Line(marker)
    ensures forall i :: |marker.name| <= i < 40 ==> Line(marker)[i] == ' '
    ensures Line(marker)[52..] == " s\n"
    ensures NumberIn(Line(marker)[40..48]) == WholeNum(marker.timer) && Line(marker)[48] == '.'
    ensures NumberIn(Line(marker)[49..52]) == Precision(marker.timer)
  {
    LineWidth(marker);
    var w, p := Decimal(WholeNum(marker.timer)), Decimal(Precision(marker.timer));
    DecimalWidth(WholeNum(marker.timer), TS_WHOLE_NUM_WIDTH);
    PrecisionWidth(marker.timer);
    DecimalReadsBack(WholeNum(marker.timer));
    DecimalReadsBack(Precision(marker.timer));
    PadReadsBack(w, TS_WHOLE_NUM_WIDTH, ' ');
    PadReadsBack(p, TS_PRECISION_WIDTH, '0');
    Columns(PadRight(marker.name, MARKER_STRING_WIDTH), PadLeft(w, TS_WHOLE_NUM_WIDTH, ' '),
            PadLeft(p, TS_PRECISION_WIDTH, '0'));
    var padded := PadRight(marker.name, MARKER_STRING_WIDTH);
    assert marker.name <= padded && padded <= Line(marker);
    assert forall i :: |marker.name| <= i < 40 ==> padded[i] == ' ';
  }

  // ---------------------------------------------------------------------------------------
  // The report
  // ---------------------------------------------------------------------------------------

  function LineOf(m: Markers, id: Id): string {
    if id in m.heap then Line(m.heap[id]) else ""
  }

  function Report(m: Markers, ids: seq<Id>): string {
    if ids == [] then "" else Report(m, ids[..|ids| - 1]) + LineOf(m, ids[|ids| - 1])
  }

  /** What scnprintf leaves of `text` in a buffer of `size` bytes, whose last one is the terminator. */
  function Clip(text: string, size: nat): string
    requires size > 0
  {
    if |text| < size then text else text[..size - 1]
  }

  /** Clipping line by line leaves the same text as clipping the whole report. */
  lemma ClipStep(text: string, line: string, size: nat)
    requires size > 0
    ensures |Clip(text, size)| < size
    ensures Clip(text, size) + Clip(line, size - |Clip(text, size)|) == Clip(text + line, size)
  {
  }

  lemma ReportAppends(m: Markers, i: nat)
    requires i < |m.list|
    ensures Report(m, m.list[..i + 1]) == Report(m, m.list[..i]) + LineOf(m, m.list[i])
  {
    assert m.list[..i + 1][..i] == m.list[..i];
  }

  /** Appending the clipped line to the clipped report so far gives the clipped longer report. */
  lemma ReportStep(m: Markers, i: nat, line: string, size: nat)
    requires i < |m.list| && size > 0 && line == LineOf(m, m.list[i])
    ensures |Clip(Report(m, m.list[..i]), size)| < size
    ensures var done := Clip(Report(m, m.list[..i]), size);
            done + Clip(line, size - |done|) == Clip(Report(m, m.list[..i + 1]), size)
  {
    ReportAppends(m, i);
    ClipStep(Report(m, m.list[..i]), line, size);
  }

  function MaxMarkers(page: nat): nat {
    page * 4 / MARKER_TOTAL_LEN
  }

  ghost predicate TimersFit(m: Markers) {
    forall id :: id in m.heap ==> WholeNum(m.heap[id].timer) < Pow10(TS_WHOLE_NUM_WIDTH)
  }

  lemma {:induction false} ReportWidth(m: Markers, ids: seq<Id>)
    requires TimersFit(m)
    requires forall i :: 0 <= i < |ids| ==> ids[i] in m.heap && |m.heap[ids[i]].name| < MARKER_STRING_WIDTH
    ensures |Report(m, ids)| == MARKER_TOTAL_LEN * |ids|
  {
    if ids != [] {
      var front := ids[..|ids| - 1];
      assert forall i :: 0 <= i < |front| ==> front[i] == ids[i];
      ReportWidth(m, front);
      LineWidth(m.heap[ids[|ids| - 1]]);
    }
  }

  function Join(lines: seq<string>): string {
    if lines == [] then "" else Join(lines[..|lines| - 1]) + lines[|lines| - 1]
  }

  /** In a text of lines of 55 bytes the i-th of them is the i-th 55 bytes. */
  lemma {:induction false} JoinSlice(lines: seq<string>, i: nat)
    requires i < |lines| && forall k :: 0 <= k < |lines| ==> |lines[k]| == 55
    ensures |Join(lines)| == 55 * |lines| && Join(lines)[55 * i..55 * i + 55] == lines[i]
  {
    var front := lines[..|lines| - 1];
    if front != [] {
      JoinSlice(front, if i < |front| then i else 0);
    }
  }

  lemma {:induction false} ReportJoins(m: Markers, ids: seq<Id>, lines: seq<string>)
    requires |lines| == |ids| && forall k :: 0 <= k < |ids| ==> lines[k] == LineOf(m, ids[k])
    ensures Report(m, ids) == Join(lines)
  {
    if ids != [] {
      ReportJoins(m, ids[..|ids| - 1], lines[..|lines| - 1]);
    }
  }

  /** The i-th 55 bytes of the report read back the i-th listed marker: its name, seconds and milliseconds. */
  lemma ReportShowsMarker(m: Markers, hash: nat -> nat, i: nat)
    requires Indexed(m, hash) && TimersFit(m) && i < |m.list|
    ensures m.list[i] in m.heap && |Report(m, m.list)| == 55 * |m.list| && 55 * i + 55 <= 55 * |m.list|
    ensures var marker, line := m.heap[m.list[i]], Report(m, m.list)[55 * i..55 * i + 55];
      && marker.name <= line && (forall k :: |marker.name| <= k < 40 ==> line[k] == ' ')
      && NumberIn(line[40..48]) == marker.timer / 32768 && line[48] == '.'
      && NumberIn(line[49..52]) == marker.timer % 32768 * 1000 / 32768 && line[52..] == " s\n"
  {
    var lines := seq(|m.list|, k requires 0 <= k < |m.list| => LineOf(m, m.list[k]));
    forall k | 0 <= k < |m.list| ensures |lines[k]| == 55 {
      assert EntryOk(m, hash, m.list[k]);
      LineWidth(m.heap[m.list[k]]);
    }
    ReportJoins(m, m.list, lines);
    JoinSlice(lines, i);
    assert EntryOk(m, hash, m.list[i]);
    LineReadsBack(m.heap[m.list[i]]);
  }

  lemma SliceOfPrefix(text: string, line: string, i: nat, j: nat)
    requires i <= j <= |text|
    ensures (text + line)[i..j] == text[i..j]
  {
  }

  lemma {:induction false} Pow2IsNotAMultipleOf5(k: nat)
    ensures PageAllocation.Pow2(k) % 5 != 0
  {
    if k > 0 {
      Pow2IsNotAMultipleOf5(k - 1);
    }
  }

  lemma NoLineFillsTheBuffer(n: nat, page: nat)
    requires page % 5 != 0
    ensures 55 * n != 4 * page
  {
    var a, r := page / 5, page % 5;
    assert r == 1 || r == 2 || r == 3 || r == 4;
    assert 4 * page - 55 * n == 5 * (4 * a - 11 * n) + 4 * r;
  }

  lemma MarkersFit(n: nat, page: nat)
    requires page % 5 != 0
    ensures MARKER_TOTAL_LEN * n < 4 * page <==> n <= MaxMarkers(page)
  {
    var q := MaxMarkers(page);
    assert 55 * q <= 4 * page < 55 * q + 55;
    NoLineFillsTheBuffer(n, page);
  }

  /** The report and its terminator fit the buffer, so nothing is clipped, exactly when the list is within the limit. */
  lemma ReportFitsIff(m: Markers, hash: nat -> nat, k: nat)
    requires Indexed(m, hash) && TimersFit(m)
    ensures var page := PageAllocation.Pow2(k);
      && |Report(m, m.list)| == MARKER_TOTAL_LEN * |m.list|
      && (|Report(m, m.list)| < 4 * page <==> |m.list| <= MaxMarkers(page))
      && (Clip(Report(m, m.list), 4 * page) == Report(m, m.list) <==> |m.list| <= MaxMarkers(page))
  {
    var page := PageAllocation.Pow2(k);
    forall i | 0 <= i < |m.list| ensures m.list[i] in m.heap && |m.heap[m.list[i]].name| < MARKER_STRING_WIDTH {
      assert EntryOk(m, hash, m.list[i]);
    }
    ReportWidth(m, m.list);
    Pow2IsNotAMultipleOf5(k);
    MarkersFit(|m.list|, page);
  }

  /** A timer register of 32 bits always fits. */
  lemma Timer32Fits(timer: nat)
    requires timer < U32
    ensures WholeNum(timer) < Pow10(TS_WHOLE_NUM_WIDTH)
  {
    assert Pow10(8) == 10 * Pow10(7) && Pow10(7) == 10 * Pow10(6) && Pow10(6) == 10 * Pow10(5);
    assert Pow10(5) == 10 * Pow10(4) && Pow10(4) == 10 * Pow10(3) && Pow10(3) == 10 * Pow10(2);
    assert Pow10(2) == 10 * Pow10(1) && Pow10(1) == 10;
  }

  // ---------------------------------------------------------------------------------------
  // Reading
  // ---------------------------------------------------------------------------------------

  /** What one read returns of the text: all that is left if it is at most `count`, else one less than `count`. */
  function Chunk(text: string, off: nat, count: nat): string
    requires off <= |text|
  {
    if |text| - off > count then text[off..off + (if count == 0 then 0 else count - 1)] else text[off..]
  }

  /** The text a read works on: the snapshot, or a new one if there is none. */
  function TextRead(kpi: string, now: string): string {
    if kpi == "" then now else kpi
  }

  /** One read: what it returns and the snapshot it leaves; `now` is the report as of this call. */
  function ReadStep(kpi: string, now: string, off: nat, count: nat): (string, string)
    requires off <= |TextRead(kpi, now)|
  {
    var text := TextRead(kpi, now);
    var out := Chunk(text, off, count);
    (out, if out == "" then "" else text)
  }

  /**
    Reads that continue where the last one ended, up to the first empty one; the list may change
    between them, so each has its own report.
   */
  function Session(kpi: string, off: nat, now: seq<string>, counts: seq<nat>): (string, string)
    requires |now| == |counts| && (counts == [] || off <= |TextRead(kpi, now[0])|)
    decreases |counts|
  {
    if counts == [] then ("", kpi)
    else
      var (out, next) := ReadStep(kpi, now[0], off, counts[0]);
      if out == "" then ("", next)
      else
        var (rest, last) := Session(next, off + |out|, now[1..], counts[1..]);
        (out + rest, last)
  }

  /** A read returns nothing before the end exactly when its buffer has no room beside the terminator. */
  lemma ReadStopsIff(text: string, off: nat, count: nat)
    requires off < |text|
    ensures Chunk(text, off, count) == "" <==> count < 2 && count < |text| - off
  {
    if count < |text| - off {
      assert |Chunk(text, off, count)| == if count == 0 then 0 else count - 1;
    } else {
      assert |Chunk(text, off, count)| == |text| - off;
    }
  }

  /** A read never returns more bytes than it was asked for, and fewer by one if there are more. */
  lemma ChunkFits(text: string, off: nat, count: nat)
    requires off <= |text|
    ensures Chunk(text, off, count) <= text[off..] && |Chunk(text, off, count)| <= count
    ensures |Chunk(text, off, count)| ==
      if |text| - off <= count then |text| - off else if count == 0 then 0 else count - 1
  {
  }

  /** The bytes that a read stores, with the terminator: scnprintf stores none in a buffer of size 0. */
  function StoredLen(text: string, off: nat, count: nat): nat
    requires off <= |text|
  {
    var size := if |text| - off > count then count else |text| + 1 - off;
    if size == 0 then 0 else |Chunk(text, off, count)| + 1
  }

  /**
    What a read stores fits the buffer unless exactly the rest of the text does: then the terminator is
    one byte too many.
   */
  lemma StoredFitsIff(text: string, off: nat, count: nat)
    requires off <= |text|
    ensures StoredLen(text, off, count) <= count <==> |text| - off != count
    ensures |text| - off == count ==> StoredLen(text, off, count) == count + 1
  {
    ChunkFits(text, off, count);
  }

  lemma ChunkThenRest(text: string, off: nat, count: nat)
    requires off <= |text|
    ensures var out := Chunk(text, off, count);
            off + |out| <= |text| && text[off..] == out + text[off + |out|..]
  {
  }

  /**
    Sequential reads of at least two bytes return the snapshot taken by the first of them, whatever
    happens to the list meanwhile, and then drop the snapshot.
   */
  lemma {:induction false} SessionDelivers(kpi: string, off: nat, now: seq<string>, counts: seq<nat>)
    requires |now| == |counts| > 0 && off <= |TextRead(kpi, now[0])|
    requires forall i :: 0 <= i < |counts| ==> counts[i] >= 2
    requires |counts| > |TextRead(kpi, now[0])| - off
    ensures Session(kpi, off, now, counts) == (TextRead(kpi, now[0])[off..], "")
    decreases |counts|
  {
    var text := TextRead(kpi, now[0]);
    var (out, next) := ReadStep(kpi, now[0], off, counts[0]);
    if off < |text| {
      ReadStopsIff(text, off, counts[0]);
      ChunkThenRest(text, off, counts[0]);
      SessionDelivers(next, off + |out|, now[1..], counts[1..]);
    }
  }

  ghost predicate Timer32(s: BootRuns.Step) {
    s.Begin? ==> s.timer < U32
  }

  function TimerOf(phase: BootRuns.Phase): nat {
    if phase.Linked? then 0 else phase.timer
  }

  /** The timers of the markers and of the placements in progress. */
  ghost predicate AllTimersFit(w: BootRuns.World) {
    TimersFit(w.m) && forall p :: p in w.pending ==> WholeNum(TimerOf(w.pending[p])) < Pow10(TS_WHOLE_NUM_WIDTH)
  }

  lemma {:induction false} DropMatchingKeepsTimers(m: Markers, ids: seq<Id>, part: string)
    requires TimersFit(m)
    ensures TimersFit(DropMatching(m, ids, part))
    decreases |ids|
  {
    if ids != [] {
      DropMatchingKeepsTimers(if Contains(m.NameOf(ids[0]), part) then Drop(m, ids[0]) else m, ids[1..], part);
    }
  }

  lemma NextKeepsTimers(w: BootRuns.World, s: BootRuns.Step, hash: nat -> nat, maxMarkers: nat)
    requires |w.m.buckets| == BUCKETS && AllTimersFit(w) && Timer32(s)
    ensures AllTimersFit(BootRuns.Next(w, s, hash, maxMarkers))
  {
    Timer32Fits(0);
    match s
    case Begin(p, name, timer) => Timer32Fits(timer);
    case Destroy(part) => DropMatchingKeepsTimers(w.m, w.m.list, part);
    case Cleanup => DropMatchingKeepsTimers(w.m, w.m.list, "");
    case _ =>
  }

  lemma {:induction false} RunKeepsTimers(w: BootRuns.World, steps: seq<BootRuns.Step>, hash: nat -> nat,
      maxMarkers: nat, w': BootRuns.World)
    requires AllTimersFit(w) && BootRuns.Reaches(w, steps, hash, maxMarkers, w')
    requires forall i :: 0 <= i < |steps| ==> Timer32(steps[i])
    ensures AllTimersFit(w')
    decreases |steps|
  {
    if steps != [] {
      NextKeepsTimers(w, steps[0], hash, maxMarkers);
      RunKeepsTimers(BootRuns.Next(w, steps[0], hash, maxMarkers), steps[1..], hash, maxMarkers, w');
    }
  }

  /**
    After any run with 32-bit timers, whatever overlapped in it, reading from the start with at least
    two bytes a time yields the line of every listed marker, in order and unclipped, and then the end of
    file, if and only if the list is within its limit; and it is if no two placements overlapped.
   */
  lemma ReadsShowAllMarkersIff(steps: seq<BootRuns.Step>, hash: nat -> nat, k: nat, w: BootRuns.World,
      now: seq<string>, counts: seq<nat>)
    requires BootRuns.Reaches(BootRuns.START, steps, hash, MaxMarkers(PageAllocation.Pow2(k)), w)
    requires forall i :: 0 <= i < |steps| ==> Timer32(steps[i])
    requires |now| == |counts| > |Report(w.m, w.m.list)|
    requires now[0] == Clip(Report(w.m, w.m.list), 4 * PageAllocation.Pow2(k))
    requires forall i :: 0 <= i < |counts| ==> counts[i] >= 2
    ensures Session("", 0, now, counts) == (Report(w.m, w.m.list), "") <==>
      |w.m.list| <= MaxMarkers(PageAllocation.Pow2(k))
    ensures
      (BootRuns.Serial(BootRuns.START, steps, hash, MaxMarkers(PageAllocation.Pow2(k)))
       && forall s <- steps :: BootRuns.Short(s))
      ==> |w.m.list| <= MaxMarkers(PageAllocation.Pow2(k))
  {
    var maxMarkers := MaxMarkers(PageAllocation.Pow2(k));
    BootRuns.StartIsSound(hash);
    BootRuns.RunKeeps(BootRuns.START, steps, hash, maxMarkers, w);
    RunKeepsTimers(BootRuns.START, steps, hash, maxMarkers, w);
    ReportFitsIff(w.m, hash, k);
    SessionDelivers("", 0, now, counts);
    assert now[0][0..] == now[0];
    if BootRuns.Serial(BootRuns.START, steps, hash, maxMarkers) && forall s <- steps :: BootRuns.Short(s) {
      BootRuns.SerialRunIsGood(steps, hash, maxMarkers, w, "");
    }
  }

  // ---------------------------------------------------------------------------------------
  // The driver in place
  // ---------------------------------------------------------------------------------------

  class BootKpi {
    var heap: map<Id, Marker>
    var list: seq<Id>
    var buckets: seq<seq<Id>>
    var numMarkers: int
    var next: Id
    var kpi: string
    const hash: nat -> nat
    const page: nat

    ghost function View(): Markers
      reads this
    {
      Markers(heap, list, buckets, numMarkers, next)
    }

    ghost predicate Valid()
      reads this
    {
      page > 0 && Inv(View(), hash, MaxMarkers(page))
    }

    constructor (hash: nat -> nat, page: nat)
      requires page > 0
      ensures Valid() && View() == EMPTY && kpi == "" && this.page == page && this.hash == hash
    {
      heap, list, buckets, numMarkers, next := map[], [], seq(BUCKETS, _ => []), 0, 0;
      kpi := "";
      this.hash, this.page := hash, page;
      new;
      assert buckets == EMPTY.buckets;
      EmptyOk(hash, MaxMarkers(page));
    }

    /** find_entry; `strays` says that it reads in front of the name. */
    method Find(name: string) returns (strays: bool, found: Option<Id>)
      requires Valid()
      ensures strays <==> name == ""
      ensures !strays ==> found == FindEntry(View(), hash, name)
    {
      var sum := CharSum(name);
      if sum.None? {
        return true, None;
      }
      var bucket := buckets[hash(sum.value) % BUCKETS];
      var i := 0;
      while i < |bucket|
        invariant i <= |bucket| && FindEntry(View(), hash, name) == First(View(), bucket[i..], name)
      {
        if bucket[i] in heap && heap[bucket[i]].name == name {
          return false, Some(bucket[i]);
        }
        i := i + 1;
      }
      return false, None;
    }

    /** _create_boot_marker */
    method Place(name: string, timer: nat, allocOk: bool) returns (strays: bool)
      requires Valid()
      modifies this
      ensures Valid() && kpi == old(kpi)
      ensures strays <==> Strays(old(View()), name, MaxMarkers(page))
      ensures View() ==
        if strays then old(View()) else Create(old(View()), hash, name, timer, MaxMarkers(page), allocOk)
    {
      strays := false;
      if numMarkers < 0 || numMarkers >= MaxMarkers(page) {
        return;
      }
      var found;
      strays, found := Find(name);
      if strays {
        return;
      }
      CreateKeeps(View(), hash, name, timer, MaxMarkers(page), allocOk);
      FindAgreesWithList(View(), hash, name);
      if found.Some? {
        heap := heap[found.value := heap[found.value].(timer := timer)];
        return;
      }
      if !allocOk {
        return;
      }
      var marker := Marker(Stored(name), timer);
      var sum := CharSum(marker.name);
      assert sum == Some(CharSumFrom(marker.name, 0));
      var b := hash(sum.value) % BUCKETS;
      heap := heap[next := marker];
      list := list + [next];
      buckets := buckets[b := [next] + buckets[b]];
      numMarkers := numMarkers + 1;
      next := next + 1;
    }

    /** The body of the loops that remove markers. */
    method RemoveIfMatching(id: Id, part: string)
      requires Valid() && id in list
      modifies this
      ensures Valid() && kpi == old(kpi)
      ensures View() == if Contains(old(View()).NameOf(id), part) then Drop(old(View()), id) else old(View())
      ensures forall x :: x in old(list) && x != id ==> x in list
    {
      assert EntryOk(View(), hash, id);
      if Contains(heap[id].name, part) {
        ghost var after := Drop(View(), id);
        DropKeeps(View(), hash, id);
        var chains := buckets;
        numMarkers := numMarkers - 1;
        buckets := seq(|chains|, b requires 0 <= b < |chains| => Counting.Without(chains[b], id));
        list := Counting.Without(list, id);
        heap := heap - {id};
        assert buckets == after.buckets;
      }
    }

    /** _destroy_boot_marker; boot_marker_cleanup is the case of the empty name. */
    method Destroy(part: string)
      requires Valid()
      modifies this
      ensures Valid() && View() == DropMatching(old(View()), old(list), part) && kpi == old(kpi)
      ensures forall id :: id in list <==> id in old(list) && !Contains(old(View()).NameOf(id), part)
    {
      DropMatchingKeeps(View(), hash, list, part);
      var ids := list;
      ghost var all := DropMatching(View(), list, part);
      var i := 0;
      while i < |ids|
        invariant i <= |ids| && Valid() && kpi == old(kpi)
        invariant all == DropMatching(View(), ids[i..], part)
        invariant Pending(ids, i)
      {
        DropMatchingStep(View(), ids, i, part);
        RemoveIfMatching(ids[i], part);
        i := i + 1;
      }
      assert View() == all;
    }

    ghost predicate Pending(ids: seq<Id>, i: nat)
      reads this
    {
      forall k :: i <= k < |ids| ==> ids[k] in list
    }

    /** The body of the loop below. */
    method AppendLine(ghost m: Markers, i: nat)
      requires Valid() && View() == m && i < |list| && kpi == Clip(Report(m, m.list[..i]), 4 * page)
      modifies this`kpi
      ensures View() == m && kpi == Clip(Report(m, m.list[..i + 1]), 4 * page)
    {
      assert EntryOk(m, hash, list[i]);
      var line := Line(heap[list[i]]);
      ReportStep(m, i, line, 4 * page);
      kpi := kpi + Clip(line, 4 * page - |kpi|);
    }

    /** The loop of bootkpi_reader that takes the snapshot; room for at least one byte is left at every turn. */
    method TakeSnapshot()
      requires Valid() && kpi == ""
      modifies this`kpi
      ensures View() == old(View()) && kpi == Clip(Report(View(), list), 4 * page)
    {
      ghost var m := View();
      var i := 0;
      while i < |list|
        invariant i <= |list| && View() == m && kpi == Clip(Report(m, m.list[..i]), 4 * page)
      {
        AppendLine(m, i);
        i := i + 1;
      }
      assert m.list[..|list|] == m.list;
    }

    /**
      bootkpi_reader.  `strays` says that the offset lies behind the text: the length left is then
      compared as an unsigned word, and the read starts behind the terminator.
     */
    method Read(off: nat, count: nat, allocOk: bool) returns (strays: bool, out: Option<string>)
      requires Valid()
      modifies this`kpi
      ensures Valid() && View() == old(View())
      ensures var now := Clip(Report(View(), list), 4 * page);
        if old(kpi) == "" && !allocOk then !strays && out == None && kpi == ""
        else if off > |TextRead(old(kpi), now)| then strays
        else !strays && out.Some? && (out.value, kpi) == ReadStep(old(kpi), now, off, count)
    {
      ghost var m := View();
      if kpi == "" {
        if !allocOk {
          return false, None;
        }
        TakeSnapshot();
      }
      if off > |kpi| {
        return true, None;
      }
      var text := Chunk(kpi, off, count);
      strays, out := false, Some(text);
      if text == "" {
        kpi := "";
      }
      assert View() == m;
    }
  }
}
