/**
  The file-backed log (src/phala/log-file.ts): one line of hex per leaf, replayed at start-up.
  Runs interleave appends, tree heads, crashes (also in the middle of a write) and restarts.
 */
module LogFile {
  import opened Basics
  import opened Hex
  import opened Merkle
  import Inclusion
  import opened Consistency
  import opened TreeHead

  const NEWLINE: char := '\n'

  // ---------------------------------------------------------------- the text of the file

  /** `text.split("\n")`: always at least one segment; the last one is not terminated. */
  function Segments(text: string): (segs: seq<string>)
    ensures |segs| > 0
    decreases |text|
  {
    if text == "" then [""]
    else
      var i := |text| - 1;
      var before := Segments(text[..i]);
      if text[i] == NEWLINE then before + [""]
      else before[..|before| - 1] + [before[|before| - 1] + [text[i]]]
  }

  function LastSegment(text: string): string {
    Segments(text)[|Segments(text)| - 1]
  }

  /** The regular expression of the replay: 64 lower-case hex digits. */
  predicate ValidLine(line: string) {
    |line| == 64 && AllLower(line)
  }

  function DecodeLine(line: string): Digest
    requires ValidLine(line)
    ensures ToHex(DecodeLine(line)) == line
  {
    FromHexDecodes(line);
    FromHex(line).value
  }

  /** Replay of split text: empty segments are skipped, a malformed one is fatal. */
  function ReplaySegments(segs: seq<string>): Option<seq<Digest>>
    decreases |segs|
  {
    if segs == [] then Some([])
    else
      var i := |segs| - 1;
      match ReplaySegments(segs[..i])
      case None => None
      case Some(leaves) =>
        if segs[i] == "" then Some(leaves)
        else if ValidLine(segs[i]) then Some(leaves + [DecodeLine(segs[i])])
        else None
  }

  function Replay(text: string): Option<seq<Digest>> {
    ReplaySegments(Segments(text))
  }

  function Line(leaf: Digest): (line: string)
    ensures |line| == 65
  {
    ToHexDecodes(leaf);
    ToHex(leaf) + [NEWLINE]
  }

  // ---------------------------------------------------------------- what a file says

  function Joined(segs: seq<string>): string
    decreases |segs|
  {
    if |segs| == 0 then ""
    else if |segs| == 1 then segs[0]
    else Joined(segs[..|segs| - 1]) + "\n" + segs[|segs| - 1]
  }

  lemma JoinedSnoc(segs: seq<string>, s: string)
    requires segs != []
    ensures Joined(segs + [s]) == Joined(segs) + "\n" + s
  {
    assert (segs + [s])[..|segs|] == segs;
  }

  lemma JoinedExtend(segs: seq<string>, c: char)
    requires segs != []
    ensures Joined(segs[..|segs| - 1] + [segs[|segs| - 1] + [c]]) == Joined(segs) + [c]
  {
    hide Joined;
    var init, last := segs[..|segs| - 1], segs[|segs| - 1];
    assert segs == init + [last];
    if init == [] {
      JoinedOne(last);
      JoinedOne(last + [c]);
      assert segs == [last] && init + [last + [c]] == [last + [c]];
    } else {
      JoinedSnoc(init, last);
      JoinedSnoc(init, last + [c]);
    }
  }

  lemma JoinedOne(s: string)
    ensures Joined([s]) == s
  {
  }

  /** Splitting cuts the text at its newlines: no segment has one, and joined by newlines they are the text. */
  lemma {:induction false} SegmentsMean(text: string)
    ensures Joined(Segments(text)) == text
    ensures forall k :: 0 <= k < |Segments(text)| ==> '\n' !in Segments(text)[k]
    decreases |text|
  {
    hide Joined;
    if text == "" {
      JoinedOne("");
    } else {
      var i := |text| - 1;
      var before := Segments(text[..i]);
      SegmentsMean(text[..i]);
      assert text == text[..i] + [text[i]];
      if text[i] == NEWLINE {
        JoinedSnoc(before, "");
      } else {
        JoinedExtend(before, text[i]);
      }
    }
  }

  /** A line that could have been written: the hex of some leaf. */
  ghost predicate IsLeafLine(line: string) {
    exists leaf: Digest :: ToHex(leaf) == line
  }

  lemma ValidLineIsLeafLine(line: string)
    ensures ValidLine(line) <==> IsLeafLine(line)
    ensures forall leaf: Digest :: ToHex(leaf) == line ==> ValidLine(line) && DecodeLine(line) == leaf
  {
    hide ToHex, FromHex;
    forall leaf: Digest | ToHex(leaf) == line
      ensures ValidLine(line) && DecodeLine(line) == leaf
    {
      ToHexDecodes(leaf);
    }
    if ValidLine(line) {
      assert ToHex(DecodeLine(line)) == line;
    }
  }

  /** The segments that are not empty, in order. */
  function Filled(segs: seq<string>): seq<string>
    decreases |segs|
  {
    if segs == [] then []
    else Filled(segs[..|segs| - 1]) + if segs[|segs| - 1] == "" then [] else [segs[|segs| - 1]]
  }

  /** A replay succeeds exactly if every line that is not empty is the hex of a leaf, and gives those leaves in
      the order of their lines. */
  lemma {:induction false} ReplaySegmentsMean(segs: seq<string>)
    ensures ReplaySegments(segs).Some? <==> forall k :: 0 <= k < |Filled(segs)| ==> IsLeafLine(Filled(segs)[k])
    ensures ReplaySegments(segs).Some? ==>
      var leaves := ReplaySegments(segs).value;
      |leaves| == |Filled(segs)| && forall k :: 0 <= k < |leaves| ==> ToHex(leaves[k]) == Filled(segs)[k]
    decreases |segs|
  {
    hide ToHex, IsLeafLine, ValidLine;
    if segs != [] {
      var init, last := segs[..|segs| - 1], segs[|segs| - 1];
      ReplaySegmentsMean(init);
      ValidLineIsLeafLine(last);
      if last == "" {
        assert Filled(segs) == Filled(init);
      } else {
        assert Filled(segs)[|Filled(init)|] == last;
        assert forall k :: 0 <= k < |Filled(init)| ==> Filled(init)[k] == Filled(segs)[k];
      }
    }
  }

  /** The same of the text of a file, cut at its newlines. */
  lemma ReplayMeans(text: string, segs: seq<string>)
    requires segs != [] && Joined(segs) == text && forall k :: 0 <= k < |segs| ==> '\n' !in segs[k]
    ensures Replay(text).Some? <==> forall k :: 0 <= k < |Filled(segs)| ==> IsLeafLine(Filled(segs)[k])
    ensures Replay(text).Some? ==>
      var leaves := Replay(text).value;
      |leaves| == |Filled(segs)| && forall k :: 0 <= k < |leaves| ==> ToHex(leaves[k]) == Filled(segs)[k]
  {
    hide Segments, Filled, ReplaySegments, IsLeafLine, Joined;
    SegmentsOfJoined(segs);
    ReplaySegmentsMean(segs);
  }

  /** A text can be cut at its newlines in one way only. */
  lemma {:induction false} SegmentsOfJoined(segs: seq<string>)
    requires segs != [] && forall k :: 0 <= k < |segs| ==> '\n' !in segs[k]
    ensures Segments(Joined(segs)) == segs
    decreases |segs|
  {
    hide Segments;
    var init, last := segs[..|segs| - 1], segs[|segs| - 1];
    if init == [] {
      SegmentsExtend("", last);
      SegmentsEmpty();
      assert "" + last == last;
    } else {
      SegmentsOfJoined(init);
      SegmentsTerminate(Joined(init));
      SegmentsExtend(Joined(init) + "\n", last);
      assert (init + [""])[..|init|] == init;
      assert "" + last == last;
    }
  }

  lemma SegmentsEmpty()
    ensures Segments("") == [""]
  {
  }

  /** What an append writes: two lower-case digits for each of the leaf's bytes, then a newline. */
  lemma LineForm(leaf: Digest)
    ensures var line := Line(leaf);
      && |line| == 65 && line[64] as int == 10
      && forall i :: 0 <= i < 32 ==>
           line[2 * i] as int == DigitCode(leaf[i] / 16) && line[2 * i + 1] as int == DigitCode(leaf[i] % 16)
  {
    hide ToHex;
    ToHexMeans(leaf);
  }

  // ---------------------------------------------------------------- how writes change a replay

  lemma SegmentsSnoc(text: string, c: char)
    requires c != NEWLINE
    ensures var segs := Segments(text); Segments(text + [c]) == segs[..|segs| - 1] + [LastSegment(text) + [c]]
  {
    assert (text + [c])[..|text|] == text;
  }

  lemma {:induction false} SegmentsExtend(text: string, s: string)
    requires NEWLINE !in s
    ensures var segs := Segments(text); Segments(text + s) == segs[..|segs| - 1] + [LastSegment(text) + s]
    decreases |s|
  {
    hide Segments;
    var segs := Segments(text);
    if s == "" {
      assert text + s == text && LastSegment(text) + s == LastSegment(text);
      assert segs == segs[..|segs| - 1] + [LastSegment(text)];
    } else {
      var i := |s| - 1;
      SegmentsExtend(text, s[..i]);
      SegmentsSnoc(text + s[..i], s[i]);
      assert text + s[..i] + [s[i]] == text + s;
      assert LastSegment(text) + s[..i] + [s[i]] == LastSegment(text) + s;
    }
  }

  lemma SegmentsTerminate(text: string)
    ensures Segments(text + [NEWLINE]) == Segments(text) + [""]
  {
    assert (text + [NEWLINE])[..|text|] == text;
  }

  lemma ReplaySnoc(segs: seq<string>, s: string)
    ensures ReplaySegments(segs + [s])
         == match ReplaySegments(segs)
            case None => None
            case Some(leaves) =>
              if s == "" then Some(leaves) else if ValidLine(s) then Some(leaves + [DecodeLine(s)]) else None
  {
    assert (segs + [s])[..|segs|] == segs;
  }

  /** The leaves of the terminated lines, leaving the last segment aside. */
  function Known(text: string): Option<seq<Digest>> {
    var segs := Segments(text);
    ReplaySegments(segs[..|segs| - 1])
  }

  /** What a last segment adds to the terminated lines. */
  function Finish(known: Option<seq<Digest>>, last: string): Option<seq<Digest>> {
    match known
    case None => None
    case Some(leaves) =>
      if last == "" then Some(leaves) else if ValidLine(last) then Some(leaves + [DecodeLine(last)]) else None
  }

  lemma ReplayIsFinish(text: string)
    ensures Replay(text) == Finish(Known(text), LastSegment(text))
  {
    hide Segments;
    var segs := Segments(text);
    assert segs == segs[..|segs| - 1] + [LastSegment(text)];
    ReplaySnoc(segs[..|segs| - 1], LastSegment(text));
  }

  /** Writing a piece of a line changes only the last segment. */
  lemma ExtendEffect(text: string, s: string)
    requires NEWLINE !in s
    ensures Known(text + s) == Known(text) && LastSegment(text + s) == LastSegment(text) + s
  {
    hide Segments;
    SegmentsExtend(text, s);
    var segs, segs' := Segments(text), Segments(text + s);
    assert segs'[..|segs'| - 1] == segs[..|segs| - 1];
  }

  lemma TerminateEffect(text: string)
    ensures Known(text + [NEWLINE]) == Replay(text) && LastSegment(text + [NEWLINE]) == ""
  {
    hide Segments;
    SegmentsTerminate(text);
    var segs, segs' := Segments(text), Segments(text + [NEWLINE]);
    assert segs'[..|segs'| - 1] == segs;
  }

  lemma LineIsValid(leaf: Digest)
    ensures ValidLine(ToHex(leaf)) && DecodeLine(ToHex(leaf)) == leaf && NEWLINE !in ToHex(leaf)
  {
    ToHexDecodes(leaf);
  }

  /** The first w of the 65 characters of an append reach the file. */
  lemma WriteEffect(text: string, leaf: Digest, w: nat)
    requires w <= 65
    ensures var text', hex := text + Line(leaf)[..w], ToHex(leaf);
      && ValidLine(hex) && DecodeLine(hex) == leaf
      && (w < 65 ==> Known(text') == Known(text) && LastSegment(text') == LastSegment(text) + hex[..w])
      && (w == 65 ==> Known(text') == Finish(Known(text), LastSegment(text) + hex) && LastSegment(text') == "")
  {
    hide Segments, ToHex, Known, LastSegment;
    LineIsValid(leaf);
    var hex := ToHex(leaf);
    if w < 65 {
      assert Line(leaf)[..w] == hex[..w];
      ExtendEffect(text, hex[..w]);
    } else {
      assert text + Line(leaf)[..w] == text + hex + [NEWLINE];
      ExtendEffect(text, hex);
      TerminateEffect(text + hex);
      ReplayIsFinish(text + hex);
    }
  }

  /** A text no later write can repair: a malformed terminated line, or a last segment too long to be a line. */
  ghost predicate Doomed(text: string) {
    Known(text) == None || |LastSegment(text)| > 64
  }

  /** The file of a running log holds its leaves, or can never be replayed again, or ends in a piece that
      the next append will make malformed, after at least those leaves. */
  ghost predicate Agrees(text: string, leaves: seq<Digest>) {
    || Replay(text) == Some(leaves)
    || Doomed(text)
    || (LastSegment(text) != "" && Known(text).Some? && leaves <= Known(text).value)
  }

  // ---------------------------------------------------------------- runs

  /** An index handed out by `append`, with the leaf stored there. */
  datatype Issued = Issued(index: nat, leaf: Digest)

  /** `leaves` is the running process's memory; `heads` and `issued` is what it has given out;
      `acked` is the list of leaves the last process held. */
  datatype State = State(text: string, leaves: Option<seq<Digest>>, heads: seq<Head>, issued: seq<Issued>,
      acked: seq<Digest>)

  datatype Event =
    | Append(data: Bytes)
    | TornAppend(data: Bytes, written: nat)    // the process dies in the middle of the write
    | AppendThrows(data: Bytes, written: nat)  // the write fails, the process lives on
    | BuildHead
    | Crash
    | Restart(readable: bool)

  const INITIAL: State := State("", None, [], [], [])

  predicate Enabled(s: State, e: Event) {
    match e
    case Restart(_) => s.leaves.None?
    case TornAppend(_, written) => s.leaves.Some? && written <= 65
    case AppendThrows(_, written) => s.leaves.Some? && written <= 65
    case _ => s.leaves.Some?
  }

  function Step(sha: Sha, s: State, e: Event): State
    requires Enabled(s, e)
  {
    match e
    case Append(data) =>
      var leaf := LeafHash(sha, data);
      var leaves := s.leaves.value + [leaf];
      s.(text := s.text + Line(leaf), leaves := Some(leaves), acked := leaves,
         issued := s.issued + [Issued(|s.leaves.value|, leaf)])
    case TornAppend(data, written) =>
      s.(text := s.text + Line(LeafHash(sha, data))[..written], leaves := None)
    case AppendThrows(data, written) =>
      s.(text := s.text + Line(LeafHash(sha, data))[..written])
    case BuildHead =>
      s.(heads := s.heads + [Head(|s.leaves.value|, Root(sha, s.leaves.value))])
    case Crash =>
      s.(leaves := None)
    case Restart(readable) =>
      if !readable then s.(leaves := Some([]), acked := [])
      else
        match Replay(s.text)
        case None => s
        case Some(leaves) => s.(leaves := Some(leaves), acked := leaves)
  }

  /** A run is a list of events, each enabled where it happens. */
  predicate IsRun(sha: Sha, s: State, events: seq<Event>)
    decreases |events|
  {
    events == [] || (Enabled(s, events[0]) && IsRun(sha, Step(sha, s, events[0]), events[1..]))
  }

  function RunFrom(sha: Sha, s: State, events: seq<Event>): State
    requires IsRun(sha, s, events)
    decreases |events|
  {
    if events == [] then s else RunFrom(sha, Step(sha, s, events[0]), events[1..])
  }

  /** Everything given out agrees with `leaves`. */
  ghost predicate Honours(sha: Sha, s: State, leaves: seq<Digest>) {
    && (forall h :: h in s.heads ==> h.size <= |leaves| && h.root == Root(sha, leaves[..h.size]))
    && (forall x :: x in s.issued ==> x.index < |leaves| && leaves[x.index] == x.leaf)
  }

  /** While the log is up, file and memory agree; while it is down, a replay extends everything ever held. */
  ghost predicate Inv(sha: Sha, s: State) {
    && Honours(sha, s, s.acked)
    && match s.leaves
       case Some(leaves) => leaves == s.acked && Agrees(s.text, leaves)
       case None => Replay(s.text).Some? ==> s.acked <= Replay(s.text).value
  }

  /** Nothing but heads of the empty log was given out. */
  ghost predicate OnlyEmptyGiven(s: State) {
    (forall h :: h in s.heads ==> h.size == 0) && s.issued == []
  }

  /** The steps that keep the log's promise: a read that fails at start-up must not hide anything given out or
      any whole line, and a write that fails must not leave a whole line behind it. */
  ghost predicate Safe(s: State, e: Event) {
    match e
    case Restart(readable) =>
      readable || (OnlyEmptyGiven(s) &&
        (LastSegment(s.text) != "" || Known(s.text) == None || Known(s.text) == Some([])))
    case AppendThrows(_, written) => written < 65 || LastSegment(s.text) != "" || Known(s.text) == None
    case _ => true
  }

  lemma HonoursExtension(sha: Sha, s: State, a: seq<Digest>, b: seq<Digest>)
    requires Honours(sha, s, a) && a <= b
    ensures Honours(sha, s, b)
  {
    forall h | h in s.heads
      ensures h.size <= |b| && h.root == Root(sha, b[..h.size])
    {
      assert b[..h.size] == a[..h.size];
    }
  }

  /** A write to the file of a running log, seen from the leaves it holds. */
  lemma WriteKeeps(text: string, leaves: seq<Digest>, leaf: Digest, w: nat)
    requires w <= 65 && Agrees(text, leaves)
    ensures var text' := text + Line(leaf)[..w];
      && (w < 65 ==> Agrees(text', leaves))
      && (w == 65 ==> Agrees(text', leaves + [leaf]))
      && (Replay(text').Some? ==> leaves <= Replay(text').value)
  {
    hide Known, LastSegment, Replay, ToHex, Line;
    WriteEffect(text, leaf, w);
    ReplayIsFinish(text);
    ReplayIsFinish(text + Line(leaf)[..w]);
    assert "" + ToHex(leaf) == ToHex(leaf);
    if w == 0 {
      assert LastSegment(text) + ToHex(leaf)[..0] == LastSegment(text);
    }
  }

  /** A step keeps the invariant exactly when it is safe. */
  lemma StepExact(sha: Sha, s: State, e: Event)
    requires Inv(sha, s) && Enabled(s, e)
    ensures Inv(sha, Step(sha, s, e)) <==> Safe(s, e)
  {
    hide Replay, Root, Line, Doomed, Known, LastSegment, Agrees;
    var s' := Step(sha, s, e);
    match e
    case Append(data) =>
      var leaf := LeafHash(sha, data);
      HonoursExtension(sha, s, s.acked, s'.acked);
      WholeLine(leaf);
      WriteKeeps(s.text, s.acked, leaf, 65);
    case TornAppend(data, written) => WriteKeeps(s.text, s.acked, LeafHash(sha, data), written);
    case AppendThrows(data, written) => FailedAppendExact(s.text, s.acked, LeafHash(sha, data), written);
    case BuildHead =>
      assert s.acked[..|s.acked|] == s.acked;
    case Crash => RunningReplay(s.text, s.acked);
    case Restart(readable) =>
      if !readable {
        HonoursNothing(sha, s);
        AgreesWithNothing(s.text);
      } else if Replay(s.text).Some? {
        HonoursExtension(sha, s, s.acked, s'.acked);
        ReplayAgrees(s.text);
      }
  }

  lemma ReplayAgrees(text: string)
    requires Replay(text).Some?
    ensures Agrees(text, Replay(text).value)
  {
  }

  lemma AgreesWithNothing(text: string)
    ensures Agrees(text, []) <==> LastSegment(text) != "" || Known(text) == None || Known(text) == Some([])
  {
    hide Known, LastSegment, Replay;
    ReplayIsFinish(text);
  }

  lemma HonoursNothing(sha: Sha, s: State)
    requires Honours(sha, s, s.acked)
    ensures Honours(sha, s, []) <==> OnlyEmptyGiven(s)
  {
    hide Root;
    var empty: seq<Digest> := [];
    forall h | h in s.heads && h.size == 0
      ensures h.root == Root(sha, empty[..h.size])
    {
      assert s.acked[..0] == empty[..0];
    }
    if s.issued != [] {
      assert s.issued[0] in s.issued;
    }
  }

  lemma WholeLine(leaf: Digest)
    ensures Line(leaf)[..65] == Line(leaf)
  {
  }

  lemma RunningReplay(text: string, leaves: seq<Digest>)
    requires Agrees(text, leaves)
    ensures Replay(text).Some? ==> leaves <= Replay(text).value
  {
    hide Known, LastSegment, Replay;
    ReplayIsFinish(text);
  }

  /** Every step of the run is safe where it happens. */
  ghost predicate IsSafeRun(sha: Sha, s: State, events: seq<Event>)
    requires IsRun(sha, s, events)
    decreases |events|
  {
    events != [] ==> Safe(s, events[0]) && IsSafeRun(sha, Step(sha, s, events[0]), events[1..])
  }

  lemma {:induction false} RunKeepsInv(sha: Sha, s: State, events: seq<Event>)
    requires Inv(sha, s) && IsRun(sha, s, events) && IsSafeRun(sha, s, events)
    ensures Inv(sha, RunFrom(sha, s, events))
    decreases |events|
  {
    hide Inv, Safe;
    if events != [] {
      StepExact(sha, s, events[0]);
      RunKeepsInv(sha, Step(sha, s, events[0]), events[1..]);
    }
  }

  /** Safety over every run, torn and failed writes included: whenever the log is up, consistency from every
      head ever signed verifies, and every index ever issued has an accepted audit path. */
  lemma RunsAreConsistent(sha: Sha, events: seq<Event>, s: State, leaves: seq<Digest>)
    requires IsRun(sha, INITIAL, events) && IsSafeRun(sha, INITIAL, events)
    requires s == RunFrom(sha, INITIAL, events) && s.leaves == Some(leaves)
    ensures forall h :: h in s.heads ==>
      var proof := ConsistencyProof(sha, leaves, h.size);
      proof.Ok? && Accepted(sha, h.size, |leaves|, h.root, Root(sha, leaves), proof.value)
    ensures forall x :: x in s.issued ==>
      var path := InclusionProof(sha, leaves, x.index);
      path.Ok? && Inclusion.Accepted(sha, x.leaf, x.index, |leaves|, path.value, Root(sha, leaves))
  {
    hide Root, IsSafeRun;
    assert Replay("") == Some([]);
    RunKeepsInv(sha, INITIAL, events);
    forall h | h in s.heads
      ensures var proof := ConsistencyProof(sha, leaves, h.size);
        proof.Ok? && Accepted(sha, h.size, |leaves|, h.root, Root(sha, leaves), proof.value)
    {
      ConsistencyComplete(sha, leaves, h.size);
    }
    forall x | x in s.issued
      ensures var path := InclusionProof(sha, leaves, x.index);
        path.Ok? && Inclusion.Accepted(sha, x.leaf, x.index, |leaves|, path.value, Root(sha, leaves))
    {
      Inclusion.InclusionComplete(sha, leaves, x.index);
    }
  }

  // ---------------------------------------------------------------- exactly the safe steps

  /** What was given out is honoured while the log is up. */
  ghost predicate Kept(sha: Sha, s: State) {
    s.leaves.Some? ==> Honours(sha, s, s.leaves.value)
  }

  /** Steps that are safe wherever they happen: no failed read, no failed write. */
  predicate Ordinary(e: Event) {
    !e.AppendThrows? && (e.Restart? ==> e.readable)
  }

  ghost predicate AllOrdinary(events: seq<Event>) {
    forall e :: e in events ==> Ordinary(e)
  }

  /** However the log goes on without further faults, it keeps its promise. */
  ghost predicate KeptEver(sha: Sha, s: State) {
    forall events :: IsRun(sha, s, events) && AllOrdinary(events) ==> Kept(sha, RunFrom(sha, s, events))
  }

  lemma {:induction false} OrdinaryIsSafe(sha: Sha, s: State, events: seq<Event>)
    requires IsRun(sha, s, events) && AllOrdinary(events)
    ensures IsSafeRun(sha, s, events)
    decreases |events|
  {
    hide Step;
    if events != [] {
      assert events[0] in events && AllOrdinary(events[1..]);
      OrdinaryIsSafe(sha, Step(sha, s, events[0]), events[1..]);
    }
  }

  /** A file with more whole lines than the running log has leaves: the next record is issued the index of
      another one. */
  lemma LinesAheadBreak(sha: Sha, s: State, known: seq<Digest>, a: Bytes, b: Bytes)
    requires s.leaves.Some? && LastSegment(s.text) == "" && Known(s.text) == Some(known) && |s.leaves.value| < |known|
    requires LeafHash(sha, a) != LeafHash(sha, b)
    ensures !KeptEver(sha, s)
  {
    hide Line, LeafHash, IsRun, RunFrom, Replay, Known, LastSegment, Root, ToHex;
    var next := |s.leaves.value|;
    var data := if LeafHash(sha, a) != known[next] then a else b;
    var leaf := LeafHash(sha, data);
    WholeLine(leaf);
    AtomicWrite(s.text, leaf, 65);
    ReplayIsFinish(s.text + Line(leaf));
    var s1 := Step(sha, s, Append(data));
    var s2 := Step(sha, s1, Crash);
    var s3 := Step(sha, s2, Restart(true));
    RunNil(sha, s3);
    RunCons(sha, s2, Restart(true), [], [Restart(true)]);
    RunCons(sha, s1, Crash, [Restart(true)], [Crash, Restart(true)]);
    var events := [Append(data), Crash, Restart(true)];
    RunCons(sha, s, Append(data), [Crash, Restart(true)], events);
    assert Issued(next, leaf) in s3.issued && s3.leaves.value[next] == known[next];
    assert AllOrdinary(events) && !Kept(sha, RunFrom(sha, s, events));
  }

  /** The exact condition, over whole runs: after a step the log keeps its promise however it goes on, if
      and only if the step was safe. (If all records had one leaf hash, nothing could be told apart.) */
  lemma SafeExactly(sha: Sha, s: State, e: Event, a: Bytes, b: Bytes)
    requires Inv(sha, s) && Enabled(s, e) && LeafHash(sha, a) != LeafHash(sha, b)
    ensures KeptEver(sha, Step(sha, s, e)) <==> Safe(s, e)
  {
    hide Inv, Replay, Root, Line, Known, LastSegment, LeafHash, KeptEver;
    StepExact(sha, s, e);
    if Safe(s, e) {
      InvKeptEver(sha, Step(sha, s, e));
    } else {
      UnsafeBreaks(sha, s, e, a, b);
    }
  }

  lemma InvKeptEver(sha: Sha, s: State)
    requires Inv(sha, s)
    ensures KeptEver(sha, s)
  {
    hide Root, Replay, Doomed, Known, IsRun, RunFrom, Agrees, IsSafeRun;
    forall events | IsRun(sha, s, events) && AllOrdinary(events)
      ensures Kept(sha, RunFrom(sha, s, events))
    {
      OrdinaryIsSafe(sha, s, events);
      RunKeepsInv(sha, s, events);
    }
  }

  lemma UnsafeBreaks(sha: Sha, s: State, e: Event, a: Bytes, b: Bytes)
    requires Inv(sha, s) && Enabled(s, e) && !Safe(s, e) && LeafHash(sha, a) != LeafHash(sha, b)
    ensures !KeptEver(sha, Step(sha, s, e))
  {
    hide Replay, Root, Line, Known, LastSegment, LeafHash, KeptEver, ToHex;
    var s' := Step(sha, s, e);
    if e.AppendThrows? {
      var leaf := LeafHash(sha, e.data);
      ReplayIsFinish(s.text);
      AtomicWrite(s.text, leaf, 65);
      LinesAheadBreak(sha, s', s.acked + [leaf], a, b);
    } else if OnlyEmptyGiven(s) {
      LinesAheadBreak(sha, s', Known(s.text).value, a, b);
    } else {
      HonoursNothing(sha, s);
      NotKeptNow(sha, s');
    }
  }

  lemma NotKeptNow(sha: Sha, s: State)
    requires !Kept(sha, s)
    ensures !KeptEver(sha, s)
  {
    hide Kept;
    var none: seq<Event> := [];
    RunNil(sha, s);
    assert AllOrdinary(none) && RunFrom(sha, s, none) == s;
  }

  /** No append was cut short inside its line. */
  predicate AppendsAtomic(events: seq<Event>) {
    forall e :: e in events && (e.TornAppend? || e.AppendThrows?) ==> e.written == 0 || e.written == 65
  }

  ghost predicate Restartable(s: State) {
    Known(s.text).Some? && LastSegment(s.text) == ""
  }

  lemma RestartableReplays(s: State)
    requires Restartable(s)
    ensures Replay(s.text).Some?
  {
    hide Known, LastSegment, Replay;
    ReplayIsFinish(s.text);
  }

  /** Liveness of start-up: if each append is atomic, the file can always be replayed. */
  lemma {:induction false} AtomicRunsRestart(sha: Sha, s: State, events: seq<Event>)
    requires IsRun(sha, s, events) && AppendsAtomic(events) && Restartable(s)
    ensures Restartable(RunFrom(sha, s, events))
    ensures Replay(RunFrom(sha, s, events).text).Some?
    decreases |events|
  {
    hide Replay, Known, LastSegment, Line, ToHex;
    RestartableReplays(s);
    if events != [] {
      var e := events[0];
      match e {
        case Append(data) =>
          WholeLine(LeafHash(sha, data));
          AtomicWrite(s.text, LeafHash(sha, data), 65);
        case TornAppend(data, written) => AtomicWrite(s.text, LeafHash(sha, data), written);
        case AppendThrows(data, written) => AtomicWrite(s.text, LeafHash(sha, data), written);
        case _ =>
      }
      AtomicRunsRestart(sha, Step(sha, s, e), events[1..]);
    }
  }

  lemma AtomicWrite(text: string, leaf: Digest, w: nat)
    requires (w == 0 || w == 65) && Known(text).Some? && LastSegment(text) == ""
    ensures var text' := text + Line(leaf)[..w];
      Known(text').Some? && LastSegment(text') == "" && (w == 65 ==> Known(text').value == Known(text).value + [leaf])
  {
    hide Known, LastSegment, Line, ToHex;
    WriteEffect(text, leaf, w);
    assert "" + ToHex(leaf) == ToHex(leaf) && "" + ToHex(leaf)[..0] == "";
  }

  // ---------------------------------------------------------------- what a run without faults records

  /** Appends, heads, crashes between operations and start-ups that can read the file. */
  predicate Faultless(e: Event) {
    e.Append? || e.BuildHead? || e.Crash? || e == Restart(true)
  }

  /** The leaves of all appended records, in order. */
  function Appended(sha: Sha, events: seq<Event>): seq<Digest>
    decreases |events|
  {
    if events == [] then []
    else (if events[0].Append? then [LeafHash(sha, events[0].data)] else []) + Appended(sha, events[1..])
  }

  /** Each leaf with its index, counted from `from`. */
  function Numbered(from: nat, leaves: seq<Digest>): seq<Issued> {
    seq(|leaves|, (i: nat) requires i < |leaves| => Issued(from + i, leaves[i]))
  }

  /** A head for each `BuildHead`, of the leaves appended by then. */
  function HeadsDue(sha: Sha, leaves: seq<Digest>, events: seq<Event>): seq<Head>
    decreases |events|
  {
    if events == [] then []
    else
      var leaves' := leaves + Appended(sha, events[..1]);
      (if events[0].BuildHead? then [Head(|leaves|, Root(sha, leaves))] else []) + HeadsDue(sha, leaves', events[1..])
  }

  /** Whether the log is up after the events. */
  function UpAfter(up: bool, events: seq<Event>): bool
    decreases |events|
  {
    if events == [] then up
    else UpAfter(if events[0].Crash? then false else if events[0].Restart? then true else up, events[1..])
  }

  /** The file holds these leaves and nothing else, and so does a running log. */
  ghost predicate Holds(s: State, leaves: seq<Digest>) {
    && Known(s.text) == Some(leaves) && LastSegment(s.text) == ""
    && (s.leaves.Some? ==> s.leaves.value == leaves)
  }

  lemma FaultlessStep(sha: Sha, s: State, leaves: seq<Digest>, e: Event)
    requires Holds(s, leaves) && Enabled(s, e) && Faultless(e)
    ensures var s', leaves' := Step(sha, s, e), leaves + Appended(sha, [e]);
      && Holds(s', leaves')
      && s'.issued == s.issued + Numbered(|leaves|, Appended(sha, [e]))
      && s'.heads == s.heads + (if e.BuildHead? then [Head(|leaves|, Root(sha, leaves))] else [])
      && s'.leaves.Some? == if e.Crash? then false else if e.Restart? then true else s.leaves.Some?
  {
    hide Replay, Known, LastSegment, Line, ToHex, Root, LeafHash;
    assert [e][1..] == [] && Appended(sha, [e][1..]) == [];
    if e.Append? {
      var leaf := LeafHash(sha, e.data);
      assert Appended(sha, [e]) == [leaf];
      WholeLine(leaf);
      AtomicWrite(s.text, leaf, 65);
    } else {
      ReplayIsFinish(s.text);
      assert Appended(sha, [e]) == [] && leaves + Appended(sha, [e]) == leaves;
    }
  }

  /** Over every run without faults, crashes and restarts included: the file holds the leaves of all appended
      records in order and nothing else, so does the log whenever it is up, every record was issued its own
      index, and every head asked for is the head of the records appended before it. */
  lemma {:induction false} FaultlessRunsRecordAll(sha: Sha, s: State, leaves: seq<Digest>, events: seq<Event>)
    requires Holds(s, leaves) && IsRun(sha, s, events) && forall e :: e in events ==> Faultless(e)
    ensures var end, added := RunFrom(sha, s, events), Appended(sha, events);
      && Replay(end.text) == Some(leaves + added) && Holds(end, leaves + added)
      && end.leaves.Some? == UpAfter(s.leaves.Some?, events)
      && end.issued == s.issued + Numbered(|leaves|, added)
      && end.heads == s.heads + HeadsDue(sha, leaves, events)
    decreases |events|
  {
    hide Replay, Known, LastSegment, LeafHash, Root, Step;
    if events == [] {
      ReplayIsFinish(s.text);
      assert leaves + [] == leaves;
    } else {
      var first, rest := events[0], events[1..];
      var now := Appended(sha, [first]);
      FaultlessStep(sha, s, leaves, first);
      FaultlessRunsRecordAll(sha, Step(sha, s, first), leaves + now, rest);
      AppendedCons(sha, events);
      assert leaves + now + Appended(sha, rest) == leaves + (now + Appended(sha, rest));
      NumberedSplits(|leaves|, now, Appended(sha, rest));
      assert events[..1] == [first];
    }
  }

  lemma AppendedCons(sha: Sha, events: seq<Event>)
    requires events != []
    ensures Appended(sha, events) == Appended(sha, [events[0]]) + Appended(sha, events[1..])
  {
    hide LeafHash;
    assert [events[0]][1..] == [];
    assert Appended(sha, [events[0]]) == if events[0].Append? then [LeafHash(sha, events[0].data)] else [];
  }

  lemma NumberedSplits(from: nat, a: seq<Digest>, b: seq<Digest>)
    ensures Numbered(from, a + b) == Numbered(from, a) + Numbered(from + |a|, b)
  {
  }

  /** A read error at start-up is taken for a first run and the log starts empty. Its promise then holds for
      good exactly when nothing but empty heads had been given out and the file holds no whole line, cannot
      be replayed, or ends in an unterminated piece. */
  lemma UnreadableRestart(sha: Sha, s: State, a: Bytes, b: Bytes)
    requires s.leaves.None? && Inv(sha, s) && LeafHash(sha, a) != LeafHash(sha, b)
    ensures KeptEver(sha, Step(sha, s, Restart(false)))
       <==> OnlyEmptyGiven(s) && (LastSegment(s.text) != "" || Known(s.text) == None || Known(s.text) == Some([]))
  {
    SafeExactly(sha, s, Restart(false), a, b);
  }

  /** Nothing had been given out, only a line written just before a crash: the next record is issued its index. */
  lemma UnreadableRestartForgets(sha: Sha, a: Bytes, b: Bytes)
    requires LeafHash(sha, a) != LeafHash(sha, b)
    ensures var events := [Restart(true), TornAppend(a, 65), Restart(false), Append(b), Crash, Restart(true)];
      && IsRun(sha, INITIAL, events)
      && var s := RunFrom(sha, INITIAL, events);
         s.issued == [Issued(0, LeafHash(sha, b))] && s.leaves == Some([LeafHash(sha, a), LeafHash(sha, b)])
  {
    hide Line, LeafHash, IsRun, RunFrom, Replay, Known, LastSegment;
    var x, y := LeafHash(sha, a), LeafHash(sha, b);
    TwoLines(x, y);
    var s1 := State("", Some([]), [], [], []);
    var s2 := State("" + Line(x)[..65], None, [], [], []);
    var s3 := s2.(leaves := Some([]));
    var s4 := State("" + Line(x)[..65] + Line(y), Some([y]), [], [Issued(0, y)], [y]);
    var s5 := s4.(leaves := None);
    var s6 := s5.(leaves := Some([x, y]), acked := [x, y]);
    var none: seq<Digest>, unissued: seq<Issued> := [], [];
    assert none + [y] == [y] && unissued + [Issued(0, y)] == [Issued(0, y)];
    assert Step(sha, s3, Append(b)) == s4;
    RunNil(sha, s6);
    var e5, e4 := [Restart(true)], [Crash, Restart(true)];
    var e3 := [Append(b), Crash, Restart(true)];
    var e2 := [Restart(false), Append(b), Crash, Restart(true)];
    var e1 := [TornAppend(a, 65), Restart(false), Append(b), Crash, Restart(true)];
    RunCons(sha, s5, Restart(true), [], e5);
    RunCons(sha, s4, Crash, e5, e4);
    RunCons(sha, s3, Append(b), e4, e3);
    RunCons(sha, s2, Restart(false), e3, e2);
    RunCons(sha, s1, TornAppend(a, 65), e2, e1);
    RunCons(sha, INITIAL, Restart(true), e1,
            [Restart(true), TornAppend(a, 65), Restart(false), Append(b), Crash, Restart(true)]);
  }

  /** Two signed heads of size 1 with different leaves, after a start-up whose read failed. */
  lemma UnreadableRestartForks(sha: Sha, a: Bytes, b: Bytes)
    requires LeafHash(sha, a) != LeafHash(sha, b)
    ensures var events := [Restart(true), Append(a), BuildHead, Crash, Restart(false), Append(b), BuildHead];
      && IsRun(sha, INITIAL, events)
      && var heads := RunFrom(sha, INITIAL, events).heads;
         |heads| == 2 && heads[0].size == heads[1].size == 1 && heads[0].root != heads[1].root
  {
    hide Line, LeafHash, IsRun, RunFrom;
    assert Replay("") == Some([]);
    var s1 := Step(sha, INITIAL, Restart(true));
    var s2 := Step(sha, s1, Append(a));
    var s3 := Step(sha, s2, BuildHead);
    var s4 := Step(sha, s3, Crash);
    var s5 := Step(sha, s4, Restart(false));
    var s6 := Step(sha, s5, Append(b));
    var s7 := Step(sha, s6, BuildHead);
    RunNil(sha, s7);
    var e6 := [BuildHead];
    var e5 := [Append(b)] + e6;
    var e4 := [Restart(false)] + e5;
    var e3 := [Crash] + e4;
    var e2 := [BuildHead] + e3;
    var e1 := [Append(a)] + e2;
    RunCons(sha, s6, BuildHead, [], e6);
    RunCons(sha, s5, Append(b), e6, e5);
    RunCons(sha, s4, Restart(false), e5, e4);
    RunCons(sha, s3, Crash, e4, e3);
    RunCons(sha, s2, BuildHead, e3, e2);
    RunCons(sha, s1, Append(a), e2, e1);
    RunCons(sha, INITIAL, Restart(true), e1,
            [Restart(true), Append(a), BuildHead, Crash, Restart(false), Append(b), BuildHead]);
  }

  /** A write that fails after all of its line is on disk: the caller is told the append failed, the
      next record is issued the same index, and a restart finds the first record there. */
  lemma FailedAppendForks(sha: Sha, a: Bytes, b: Bytes)
    requires LeafHash(sha, a) != LeafHash(sha, b)
    ensures var events := [Restart(true), AppendThrows(a, 65), Append(b), Crash, Restart(true)];
      && IsRun(sha, INITIAL, events)
      && var s := RunFrom(sha, INITIAL, events);
         s.issued == [Issued(0, LeafHash(sha, b))] && s.leaves == Some([LeafHash(sha, a), LeafHash(sha, b)])
  {
    hide Line, LeafHash, IsRun, RunFrom, Replay, Known, LastSegment;
    var x, y := LeafHash(sha, a), LeafHash(sha, b);
    TwoLines(x, y);
    var s1 := State("", Some([]), [], [], []);
    var s2 := s1.(text := "" + Line(x)[..65]);
    var s3 := State("" + Line(x)[..65] + Line(y), Some([y]), [], [Issued(0, y)], [y]);
    var s4 := s3.(leaves := None);
    var s5 := s4.(leaves := Some([x, y]), acked := [x, y]);
    var none: seq<Digest>, unissued: seq<Issued> := [], [];
    assert none + [y] == [y] && unissued + [Issued(0, y)] == [Issued(0, y)];
    assert Step(sha, s2, Append(b)) == s3;
    RunNil(sha, s5);
    RunCons(sha, s4, Restart(true), [], [Restart(true)]);
    RunCons(sha, s3, Crash, [Restart(true)], [Crash, Restart(true)]);
    RunCons(sha, s2, Append(b), [Crash, Restart(true)], [Append(b), Crash, Restart(true)]);
    RunCons(sha, s1, AppendThrows(a, 65), [Append(b), Crash, Restart(true)],
      [AppendThrows(a, 65), Append(b), Crash, Restart(true)]);
    RunCons(sha, INITIAL, Restart(true), [AppendThrows(a, 65), Append(b), Crash, Restart(true)],
            [Restart(true), AppendThrows(a, 65), Append(b), Crash, Restart(true)]);
  }

  /** A failed write leaves file and memory in agreement exactly when some of its line is missing, or
      it continued an unterminated piece or a file beyond repair, which no start-up accepts any more. */
  lemma FailedAppendExact(text: string, leaves: seq<Digest>, leaf: Digest, w: nat)
    requires w <= 65 && Agrees(text, leaves)
    ensures Agrees(text + Line(leaf)[..w], leaves) <==> w < 65 || LastSegment(text) != "" || Known(text) == None
  {
    hide Known, LastSegment, Replay, Line, ToHex;
    WriteKeeps(text, leaves, leaf, w);
    if w == 65 {
      WriteEffect(text, leaf, w);
      ReplayIsFinish(text);
      ReplayIsFinish(text + Line(leaf)[..w]);
      assert "" + ToHex(leaf) == ToHex(leaf);
    }
  }

  lemma TwoLines(x: Digest, y: Digest)
    ensures Replay("") == Some([]) && Replay("" + Line(x)[..65] + Line(y)) == Some([x, y])
  {
    hide Line, Replay, Known, LastSegment;
    EmptyFile();
    ReplayIsFinish("");
    var one := "" + Line(x)[..65];
    WholeLine(y);
    AtomicWrite("", x, 65);
    AtomicWrite(one, y, 65);
    ReplayIsFinish(one + Line(y));
    assert [] + [x] + [y] == [x, y];
  }

  lemma EmptyFile()
    ensures Known("") == Some([]) && LastSegment("") == ""
  {
  }

  lemma RunNil(sha: Sha, s: State)
    ensures IsRun(sha, s, []) && RunFrom(sha, s, []) == s
  {
  }

  lemma RunCons(sha: Sha, s: State, e: Event, rest: seq<Event>, events: seq<Event>)
    requires Enabled(s, e) && IsRun(sha, Step(sha, s, e), rest) && events == [e] + rest
    ensures IsRun(sha, s, events)
    ensures RunFrom(sha, s, events) == RunFrom(sha, Step(sha, s, e), rest)
  {
    assert events[1..] == rest;
  }

  // ---------------------------------------------------------------- the class

  lemma {:induction false} ReplayFailsForGood(segs: seq<string>, i: nat)
    requires i <= |segs| && ReplaySegments(segs[..i]) == None
    ensures ReplaySegments(segs) == None
    decreases |segs| - i
  {
    if i < |segs| {
      ReplaySnoc(segs[..i], segs[i]);
      assert segs[..i + 1] == segs[..i] + [segs[i]];
      ReplayFailsForGood(segs, i + 1);
    } else {
      assert segs[..i] == segs;
    }
  }

  /** Rebuild the leaves from the text of the file; the first malformed line is fatal. */
  method ReplayFile(text: string) returns (r: Option<seq<Digest>>)
    ensures r == Replay(text)
  {
    hide Segments, ReplaySegments;
    var segs := Segments(text);
    var leaves: seq<Digest> := [];
    ReplayNone();
    for i := 0 to |segs|
      invariant ReplaySegments(segs[..i]) == Some(leaves)
    {
      ReplaySnoc(segs[..i], segs[i]);
      assert segs[..i + 1] == segs[..i] + [segs[i]];
      if segs[i] != "" {
        if !ValidLine(segs[i]) {
          ReplayFailsForGood(segs, i + 1);
          return None;
        }
        leaves := leaves + [DecodeLine(segs[i])];
      }
    }
    assert segs[..|segs|] == segs;
    return Some(leaves);
  }

  lemma ReplayNone()
    ensures ReplaySegments([]) == Some([])
  {
  }

  /** A checkpoint holds a head that was given out. */
  ghost predicate OneOf(checkpoint: Option<Sth>, heads: seq<Head>) {
    checkpoint.Some? ==> HeadOf(checkpoint.value).Some? && HeadOf(checkpoint.value).value in heads
  }

  /** A running log: the file, the leaves in memory, and (for the proof) what it has given out. */
  class FileLog {
    const sha: Sha
    const logId: string
    const sign: Sign
    var text: string
    /** The newest tree head on disk. */
    var checkpoint: Option<Sth>
    var leafHashes: seq<Digest>
    ghost var heads: seq<Head>
    ghost var issued: seq<Issued>

    ghost function View(): State
      reads this
    {
      State(text, Some(leafHashes), heads, issued, leafHashes)
    }

    ghost predicate Valid()
      reads this
    {
      Inv(sha, View()) && OneOf(checkpoint, heads)
    }

    constructor (sha: Sha, logId: string, sign: Sign, ghost s: State, text: string, checkpoint: Option<Sth>,
        leaves: seq<Digest>)
      ensures this.sha == sha && this.checkpoint == checkpoint
      ensures View() == State(text, Some(leaves), s.heads, s.issued, leaves)
    {
      this.sha := sha;
      this.logId := logId;
      this.sign := sign;
      this.text := text;
      this.checkpoint := checkpoint;
      leafHashes := leaves;
      heads := s.heads;
      issued := s.issued;
    }

    /** Start on the files left by an earlier process, which had given out `s.heads` and `s.issued`. A file that
        cannot be read is taken for none; one that can is refused exactly when it has a malformed line. */
    static method Open(sha: Sha, logId: string, sign: Sign, ghost s: State, readable: bool, text: string,
        checkpoint: Option<Sth>)
      returns (log: FileLog?)
      requires Inv(sha, s) && s.leaves.None? && s.text == text && OneOf(checkpoint, s.heads)
      ensures log == null <==> readable && Replay(text).None?
      ensures log == null ==> Step(sha, s, Restart(readable)) == s
      ensures log != null ==>
        && fresh(log) && log.sha == sha && log.checkpoint == checkpoint
        && log.View() == Step(sha, s, Restart(readable))
        && (log.Valid() <==> Safe(s, Restart(readable)))
    {
      hide Inv, Replay, OneOf, Safe;
      StepExact(sha, s, Restart(readable));
      if !readable {
        log := new FileLog(sha, logId, sign, s, text, checkpoint, []);
        return;
      }
      var replayed := ReplayFile(text);
      match replayed
      case None => return null;
      case Some(leaves) => log := new FileLog(sha, logId, sign, s, text, checkpoint, leaves);
    }

    /** `fault` is how many characters reach the file before the write throws, if it does. */
    method Append(data: Bytes, fault: Option<nat>) returns (r: Option<(nat, nat)>)
      requires Valid() && (fault.Some? ==> fault.value <= 65)
      modifies this
      ensures fault.None? ==>
        && Valid() && View() == Step(sha, old(View()), Event.Append(data))
        && r == Some((|old(leafHashes)|, |old(leafHashes)| + 1))
      ensures fault.Some? ==>
        && r.None? && View() == Step(sha, old(View()), AppendThrows(data, fault.value))
        && (Valid() <==> fault.value < 65 || LastSegment(old(text)) != "" || Known(old(text)) == None)
    {
      hide Known, LastSegment, Doomed, Replay, Line;
      var hash := LeafHash(sha, data);
      var leafIndex := |leafHashes|;
      if fault.Some? {
        FailedAppendExact(text, leafHashes, hash, fault.value);
        text := text + Line(hash)[..fault.value];
        return None;
      }
      StepExact(sha, View(), Event.Append(data));
      text := text + Line(hash);
      leafHashes := leafHashes + [hash];
      issued := issued + [Issued(leafIndex, hash)];
      return Some((leafIndex, |leafHashes|));
    }

    /** The head is signed and given out, and becomes the checkpoint: so a proof of consistency from the
        last checkpoint is always there, see ProveConsistency. */
    method BuildSTH(timestamp: string) returns (sth: Sth)
      requires Valid()
      modifies this
      ensures Valid() && View() == Step(sha, old(View()), BuildHead)
      ensures HeadOf(sth) == Some(Head(|leafHashes|, Root(sha, leafHashes)))
      ensures sth.core.logId == logId && sth.core.timestamp == timestamp && sth.signature == sign(sth.core)
      ensures checkpoint == Some(sth)
    {
      hide HeadOf;
      StepExact(sha, View(), BuildHead);
      var head := Head(|leafHashes|, Root(sha, leafHashes));
      sth := SignHead(sign, logId, head, timestamp);
      SignedHeadReads(sign, logId, head, timestamp);
      heads := heads + [head];
      checkpoint := Some(sth);
    }

    /** A proof for any size up to the present one; accepted for every head given out. */
    method ProveConsistency(fromSize: int) returns (proof: Result<seq<Digest>, ProofError>)
      requires Valid()
      ensures proof.Ok? <==> 0 <= fromSize <= |leafHashes|
      ensures forall h :: h in heads && h.size == fromSize ==>
        proof.Ok? && Accepted(sha, fromSize, |leafHashes|, h.root, Root(sha, leafHashes), proof.value)
      ensures checkpoint.Some? && HeadOf(checkpoint.value).value.size == fromSize ==>
        proof.Ok? && Accepted(sha, fromSize, |leafHashes|, HeadOf(checkpoint.value).value.root, Root(sha, leafHashes),
          proof.value)
    {
      hide Root, Replay, Doomed;
      proof := ConsistencyProof(sha, leafHashes, fromSize);
      ConsistencyComplete(sha, leafHashes, fromSize);
    }

    method InclusionAuditPath(leafIndex: int) returns (path: Result<seq<Digest>, ProofError>)
      requires Valid()
      ensures path.Ok? <==> 0 <= leafIndex < |leafHashes|
      ensures forall x :: x in issued && x.index == leafIndex ==>
        path.Ok? && Inclusion.Accepted(sha, x.leaf, leafIndex, |leafHashes|, path.value, Root(sha, leafHashes))
    {
      hide Root, Replay, Doomed;
      path := InclusionProof(sha, leafHashes, leafIndex);
      Inclusion.InclusionComplete(sha, leafHashes, leafIndex);
    }
  }
}
