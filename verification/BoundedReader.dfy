/** scripts/read_bounded_reference.py: reading the window of a file that an index entry declares.
    Offsets count characters, the limit counts UTF-8 bytes. */
module BoundedReader {
  import opened Hashing
  import opened Results
  import opened Ordering
  import opened PyText
  import opened Utf8

  /** A match of one of the two marker patterns. */
  datatype Match = Match(id: string, offset: nat)

  datatype Marker = Marker(id: string, offset: nat, isEnd: bool)

  datatype Target = Target(refId: string, startMarker: string, endPolicy: string, endMarker: string,
                           maxBytes: nat, expected: string)

  datatype EndReason = AtNextMarker | AtEndMarker | AtMaxBytes | AtEndOfFile

  datatype End = End(offset: nat, reason: EndReason)

  datatype ReadError = StartMarkerNotFound | AmbiguousStartMarker | EndMarkerNotFound

  datatype Window = Window(start: nat, end: nat, bytesRead: nat, fingerprint: string, reason: EndReason,
                           content: string, drifted: bool)

  // ---- Searching text --------------------------------------------------------------

  /** text.find(pat, from) */
  function FindFrom(text: string, pat: string, from: nat): (r: Option<nat>)
    ensures r.None? ==> forall i :: from <= i ==> !OccursAt(text, pat, i)
    ensures r.Some? ==> from <= r.value && OccursAt(text, pat, r.value)
                        && forall i :: from <= i < r.value ==> !OccursAt(text, pat, i)
    decreases |text| - from
  {
    if from + |pat| > |text| then None
    else if text[from..from + |pat|] == pat then Some(from)
    else FindFrom(text, pat, from + 1)
  }

  /** text.count(pat), which counts from left to right without overlaps. */
  function Count(text: string, pat: string, from: nat): nat
    requires pat != ""
    decreases |text| - from
  {
    match FindFrom(text, pat, from)
    case None => 0
    case Some(i) => 1 + Count(text, pat, i + |pat|)
  }

  /** text[i:j] */
  function Slice(text: string, i: nat, j: nat): string {
    var stop := if j <= |text| then j else |text|;
    if i < stop then text[i..stop] else ""
  }

  predicate IsBreak(c: char) { c == '\n' || c == '\r' }

  predicate IsTrail(c: char) { c == '\n' || c == '\r' || c == ' ' }

  /** The first position from i on that holds no line break. */
  function SkipBreaks(text: string, i: nat): (r: nat)
    requires i <= |text|
    ensures i <= r <= |text|
    ensures forall j :: i <= j < r ==> IsBreak(text[j])
    ensures r < |text| ==> !IsBreak(text[r])
    decreases |text| - i
  {
    if i < |text| && IsBreak(text[i]) then SkipBreaks(text, i + 1) else i
  }

  // ---- Markers ---------------------------------------------------------------------

  predicate ByOffset(a: Marker, b: Marker) { a.offset <= b.offset }

  function StartMarkerOf(m: Match): Marker { Marker(m.id, m.offset, false) }

  function EndMarkerOf(m: Match): Marker { Marker(m.id, m.offset, true) }

  function AllMarkers(starts: seq<Match>, ends: seq<Match>): seq<Marker> {
    SortBy(MapSeq(starts, StartMarkerOf) + MapSeq(ends, EndMarkerOf), ByOffset)
  }

  method FindAllMarkers(starts: seq<Match>, ends: seq<Match>) returns (markers: seq<Marker>)
    ensures markers == AllMarkers(starts, ends)
    ensures SortedBy(markers, ByOffset)
    ensures forall k :: k in markers <==> Match(k.id, k.offset) in if k.isEnd then ends else starts
  {
    markers := [];
    for i := 0 to |starts|
      invariant markers == MapSeq(starts, StartMarkerOf)[..i]
    {
      markers := markers + [Marker(starts[i].id, starts[i].offset, false)];
    }
    for i := 0 to |ends|
      invariant markers == MapSeq(starts, StartMarkerOf) + MapSeq(ends, EndMarkerOf)[..i]
    {
      markers := markers + [Marker(ends[i].id, ends[i].offset, true)];
    }
    assert markers == MapSeq(starts, StartMarkerOf) + MapSeq(ends, EndMarkerOf);
    markers := SortBy(markers, ByOffset);
    SortSorts(MapSeq(starts, StartMarkerOf) + MapSeq(ends, EndMarkerOf), ByOffset);
    forall k: Marker ensures k in markers <==> Match(k.id, k.offset) in if k.isEnd then ends else starts {
      MarkerMembers(starts, ends, k);
    }
  }

  predicate EndsWindow(m: Marker, refId: string, startIdx: nat) {
    m.offset > startIdx && !m.isEnd && m.id != refId
  }

  function FirstForeign(markers: seq<Marker>, refId: string, startIdx: nat): Option<nat> {
    if markers == [] then None
    else if EndsWindow(markers[0], refId, startIdx) then Some(markers[0].offset)
    else FirstForeign(markers[1..], refId, startIdx)
  }

  /** A start marker of another reference behind the given position. */
  predicate Foreign(m: Match, refId: string, startIdx: nat) {
    m.id != refId && m.offset > startIdx
  }

  lemma {:induction false} FirstOfSorted(markers: seq<Marker>, refId: string, startIdx: nat)
    requires SortedBy(markers, ByOffset)
    ensures var r := FirstForeign(markers, refId, startIdx);
            && (r.None? ==> forall m :: m in markers ==> !EndsWindow(m, refId, startIdx))
            && (r.Some? ==> && (exists m :: m in markers && EndsWindow(m, refId, startIdx) && m.offset == r.value)
                            && forall m :: m in markers && EndsWindow(m, refId, startIdx) ==> r.value <= m.offset)
  {
    if markers != [] {
      var head := markers[0];
      assert head in markers;
      assert forall m :: m in markers <==> m == head || m in markers[1..];
      if EndsWindow(head, refId, startIdx) {
        forall m | m in markers ensures head.offset <= m.offset {
          var i := IndexOf(markers, m);
          assert i > 0 ==> ByOffset(markers[0], markers[i]);
        }
      } else {
        FirstOfSorted(markers[1..], refId, startIdx);
      }
    }
  }

  /** Every match is listed, under its kind, and nothing else is. */
  lemma MarkerMembers(starts: seq<Match>, ends: seq<Match>, k: Marker)
    ensures k in AllMarkers(starts, ends) <==> Match(k.id, k.offset) in if k.isEnd then ends else starts
  {
    var a, b := MapSeq(starts, StartMarkerOf), MapSeq(ends, EndMarkerOf);
    SortMembers(a + b, ByOffset);
    var m := Match(k.id, k.offset);
    if k in a + b {
      if k in a {
        var i := IndexOf(a, k);
        assert starts[i] == m;
      } else {
        var i := IndexOf(b, k);
        assert ends[i] == m;
      }
    }
    if !k.isEnd && m in starts {
      var i := IndexOf(starts, m);
      assert a[i] == k;
    }
    if k.isEnd && m in ends {
      var i := IndexOf(ends, m);
      assert b[i] == k;
    }
  }

  /** The end marker search finds the nearest start marker of another reference, if there is one. */
  lemma {:induction false} NearestForeign(starts: seq<Match>, ends: seq<Match>, refId: string, startIdx: nat)
    ensures var r := FirstForeign(AllMarkers(starts, ends), refId, startIdx);
            && (r.None? <==> forall m :: m in starts ==> !Foreign(m, refId, startIdx))
            && (r.Some? ==> && (exists m :: m in starts && Foreign(m, refId, startIdx) && m.offset == r.value)
                            && forall m :: m in starts && Foreign(m, refId, startIdx) ==> r.value <= m.offset)
  {
    SortSorts(MapSeq(starts, StartMarkerOf) + MapSeq(ends, EndMarkerOf), ByOffset);
    var markers := AllMarkers(starts, ends);
    FirstOfSorted(markers, refId, startIdx);
    forall m | m in starts && Foreign(m, refId, startIdx)
      ensures StartMarkerOf(m) in markers && EndsWindow(StartMarkerOf(m), refId, startIdx)
    {
      MarkerMembers(starts, ends, StartMarkerOf(m));
    }
    var r := FirstForeign(markers, refId, startIdx);
    if r.Some? {
      var k :| k in markers && EndsWindow(k, refId, startIdx) && k.offset == r.value;
      MarkerMembers(starts, ends, k);
      var m := Match(k.id, k.offset);
      assert m in starts && Foreign(m, refId, startIdx);
    }
  }

  // ---- The window ------------------------------------------------------------------

  function EndPattern(t: Target): (r: string)
    ensures r != ""
  {
    if t.endMarker != "" then t.endMarker else "<!-- core:index:end id=\"" + t.refId + "\" -->"
  }

  /** Where the window ends before trailing space and the limit are applied. */
  function EndOf(text: string, markers: seq<Marker>, t: Target, startIdx: nat, start: nat): Result<End, ReadError> {
    if t.endPolicy == "next_marker" then
      match FirstForeign(markers, t.refId, startIdx)
      case None => Ok(End(|text|, AtEndOfFile))
      case Some(offset) => Ok(End(offset, AtNextMarker))
    else if t.endPolicy == "explicit_end_marker" then
      match FindFrom(text, EndPattern(t), start)
      case None => Raised(EndMarkerNotFound)
      case Some(offset) => Ok(End(offset, AtEndMarker))
    else if t.endPolicy == "max_bytes" then
      Ok(End(if start + t.maxBytes < |text| then start + t.maxBytes else |text|, AtMaxBytes))
    else Ok(End(|text|, AtEndOfFile))
  }

  function Body(text: string, start: nat, end: nat): string {
    StripRight(Slice(text, start, end), IsTrail)
  }

  lemma BodyIsPrefix(text: string, start: nat, end: nat)
    ensures Body(text, start, end) <= Slice(text, start, end)
  {
    StripRightCuts(Slice(text, start, end), IsTrail);
  }

  predicate Truncated(text: string, start: nat, end: nat, t: Target) {
    |EncodeAll(Body(text, start, end))| > t.maxBytes
  }

  function Content(text: string, start: nat, end: nat, t: Target): string {
    var body := Body(text, start, end);
    if Truncated(text, start, end, t) then DecodeReplace(EncodeAll(body)[..t.maxBytes]) else body
  }

  function Fingerprint(sha256: seq<int> -> string, content: string): string {
    "sha256:" + sha256(EncodeAll(content))
  }

  function Finish(text: string, start: nat, end: End, t: Target, sha256: seq<int> -> string): Window {
    BodyIsPrefix(text, start, end.offset);
    var stripped := |Slice(text, start, end.offset)| - |Body(text, start, end.offset)|;
    var cut := Truncated(text, start, end.offset, t);
    var content := Content(text, start, end.offset, t);
    var fingerprint := Fingerprint(sha256, content);
    Window(start, if cut then start + t.maxBytes else end.offset - stripped, |EncodeAll(content)|, fingerprint,
           if cut then AtMaxBytes else end.reason, content, t.expected != "" && fingerprint != t.expected)
  }

  function ContentStart(text: string, t: Target, startIdx: nat): (r: nat)
    requires startIdx + |t.startMarker| <= |text|
  {
    SkipBreaks(text, startIdx + |t.startMarker|)
  }

  /** The start marker, the first position behind it, and where the window would end. */
  datatype Location = Location(marker: nat, start: nat, end: End)

  function Locate(text: string, starts: seq<Match>, ends: seq<Match>, t: Target): Result<Location, ReadError> {
    if t.startMarker == "" then Raised(StartMarkerNotFound)
    else if Count(text, t.startMarker, 0) > 1 then Raised(AmbiguousStartMarker)
    else
      match FindFrom(text, t.startMarker, 0)
      case None => Raised(StartMarkerNotFound)
      case Some(startIdx) =>
        var start := ContentStart(text, t, startIdx);
        match EndOf(text, AllMarkers(starts, ends), t, startIdx, start)
        case Raised(e) => Raised(e)
        case Ok(end) => Ok(Location(startIdx, start, end))
  }

  /** The window that an index entry stands for, or the error code. */
  function Read(text: string, starts: seq<Match>, ends: seq<Match>, t: Target, sha256: seq<int> -> string)
    : Result<Window, ReadError>
  {
    match Locate(text, starts, ends, t)
    case Raised(e) => Raised(e)
    case Ok(l) => Ok(Finish(text, l.start, l.end, t, sha256))
  }

  /** The loop over the sorted markers that looks for the next reference. */
  method NextMarker(text: string, markers: seq<Marker>, refId: string, startIdx: nat) returns (end: End)
    ensures end == match FirstForeign(markers, refId, startIdx)
                   case None => End(|text|, AtEndOfFile)
                   case Some(offset) => End(offset, AtNextMarker)
  {
    end := End(|text|, AtEndOfFile);
    var i := 0;
    while i < |markers|
      invariant 0 <= i <= |markers| && end == End(|text|, AtEndOfFile)
      invariant FirstForeign(markers, refId, startIdx) == FirstForeign(markers[i..], refId, startIdx)
    {
      var m := markers[i];
      if m.offset > startIdx && !m.isEnd && m.id != refId {
        end := End(m.offset, AtNextMarker);
        break;
      }
      assert markers[i..][1..] == markers[i + 1..];
      i := i + 1;
    }
  }

  /** The branches over the end policy. */
  method FindEnd(text: string, markers: seq<Marker>, t: Target, startIdx: nat, start: nat)
    returns (r: Result<End, ReadError>)
    ensures r == EndOf(text, markers, t, startIdx, start)
  {
    var end := End(|text|, AtEndOfFile);
    if t.endPolicy == "next_marker" {
      end := NextMarker(text, markers, t.refId, startIdx);
    } else if t.endPolicy == "explicit_end_marker" {
      var at := FindFrom(text, EndPattern(t), start);
      if at.None? { return Raised(EndMarkerNotFound); }
      end := End(at.value, AtEndMarker);
    } else if t.endPolicy == "max_bytes" {
      end := End(if start + t.maxBytes < |text| then start + t.maxBytes else |text|, AtMaxBytes);
    }
    r := Ok(end);
  }

  /** Stripping, the limit, the fingerprint and the comparison with the expected one. */
  method CutWindow(text: string, start: nat, end: End, t: Target, sha256: seq<int> -> string)
    returns (w: Window)
    ensures w == Finish(text, start, end, t, sha256)
  {
    BodyIsPrefix(text, start, end.offset);
    var piece := Slice(text, start, end.offset);
    var content := StripRight(piece, IsTrail);
    var stop := end.offset - (|piece| - |content|);
    var reason := end.reason;
    var bytes := EncodeAll(content);
    if |bytes| > t.maxBytes {
      bytes := bytes[..t.maxBytes];
      content := DecodeReplace(bytes);
      stop := start + t.maxBytes;
      reason := AtMaxBytes;
      bytes := EncodeAll(content);
    }
    var fingerprint := "sha256:" + sha256(bytes);
    w := Window(start, stop, |bytes|, fingerprint, reason, content, t.expected != "" && fingerprint != t.expected);
  }

  /** From the text of the file to the window. */
  method ReadBoundedReference(text: string, starts: seq<Match>, ends: seq<Match>, t: Target,
                              sha256: seq<int> -> string)
    returns (r: Result<Window, ReadError>)
    ensures r == Read(text, starts, ends, t, sha256)
  {
    if t.startMarker == "" { return Raised(StartMarkerNotFound); }
    if Count(text, t.startMarker, 0) > 1 { return Raised(AmbiguousStartMarker); }
    var found := FindFrom(text, t.startMarker, 0);
    if found.None? { return Raised(StartMarkerNotFound); }
    var startIdx := found.value;

    var start := startIdx + |t.startMarker|;
    while start < |text| && IsBreak(text[start])
      invariant startIdx + |t.startMarker| <= start <= |text|
      invariant SkipBreaks(text, start) == ContentStart(text, t, startIdx)
    {
      start := start + 1;
    }

    var markers := FindAllMarkers(starts, ends);
    var end := FindEnd(text, markers, t, startIdx, start);
    if end.Raised? { return Raised(end.error); }
    var window := CutWindow(text, start, end.value, t, sha256);
    r := Ok(window);
  }

  // ---- When a window is read -------------------------------------------------------

  /** Two occurrences of the pattern side by side. */
  ghost predicate OccursTwice(text: string, pat: string) {
    exists i, j :: OccursAt(text, pat, i) && OccursAt(text, pat, j) && i + |pat| <= j
  }

  lemma {:induction false} CountsTwoIff(text: string, pat: string)
    requires pat != ""
    ensures Count(text, pat, 0) > 1 <==> OccursTwice(text, pat)
  {
    var first := FindFrom(text, pat, 0);
    if first.Some? {
      var second := FindFrom(text, pat, first.value + |pat|);
      if OccursTwice(text, pat) {
        var i, j :| OccursAt(text, pat, i) && OccursAt(text, pat, j) && i + |pat| <= j;
        assert first.value <= i;
      }
    }
  }

  /** The error code tells what is wrong with the markers, and any other read succeeds. Occurrences
      that overlap do not make the start marker ambiguous. */
  lemma {:induction false} OutcomeOfRead(text: string, starts: seq<Match>, ends: seq<Match>, t: Target,
                                         sha256: seq<int> -> string)
    ensures var r, pat := Read(text, starts, ends, t, sha256), t.startMarker;
            && (r == Raised(StartMarkerNotFound) <==> pat == "" || forall i :: !OccursAt(text, pat, i))
            && (r == Raised(AmbiguousStartMarker) <==> pat != "" && OccursTwice(text, pat))
            && (r == Raised(EndMarkerNotFound) <==>
                  && pat != "" && !OccursTwice(text, pat) && t.endPolicy == "explicit_end_marker"
                  && exists i :: FirstAt(text, pat, i)
                                 && forall j :: SkipBreaks(text, i + |pat|) <= j ==> !OccursAt(text, EndPattern(t), j))
  {
    var pat := t.startMarker;
    if pat != "" {
      CountsTwoIff(text, pat);
      var first := FindFrom(text, pat, 0);
      if first.Some? {
        assert FirstAt(text, pat, first.value);
        assert forall i :: FirstAt(text, pat, i) ==> i == first.value;
      } else {
        assert forall i :: OccursAt(text, pat, i) ==> 0 <= i;
      }
    }
  }

  /** A start marker that occurs twice is read all the same when its occurrences overlap. */
  lemma OverlapIsNotReported(sha256: seq<int> -> string)
    ensures var t := Target("a", "aa", "end_of_file", "", 5, "");
            && OccursAt("aaa", "aa", 0) && OccursAt("aaa", "aa", 1)
            && Read("aaa", [], [], t, sha256).Ok?
  {
    var text := "aaa";
    var t := Target("a", "aa", "end_of_file", "", 5, "");
    assert text[0..2] == "aa" && text[1..3] == "aa";
    OutcomeOfRead(text, [], [], t, sha256);
    assert OccursAt(text, "aa", 0);
  }

  ghost predicate FirstAt(text: string, pat: string, i: int) {
    OccursAt(text, pat, i) && forall j :: 0 <= j < i ==> !OccursAt(text, pat, j)
  }

  // ---- The window that an index entry declares -------------------------------------

  /** The window begins behind the first start marker and the line breaks that follow it. */
  ghost predicate StartsAt(text: string, t: Target, marker: nat, start: nat) {
    && FirstAt(text, t.startMarker, marker)
    && marker + |t.startMarker| <= start <= |text|
    && (forall j :: marker + |t.startMarker| <= j < start ==> text[j] in "\n\r")
    && (start < |text| ==> text[start] !in "\n\r")
  }

  /** The window ends where its policy says: at the nearest start marker of another reference, at the first
      end marker, at the limit, or with the text. */
  ghost predicate EndsAt(text: string, starts: seq<Match>, t: Target, marker: nat, start: nat, end: End) {
    if t.endPolicy == "next_marker" then
      if exists m :: m in starts && m.id != t.refId && m.offset > marker then
        && end.reason == AtNextMarker
        && (exists m :: m in starts && m.id != t.refId && m.offset > marker && m.offset == end.offset)
        && forall m :: m in starts && m.id != t.refId && m.offset > marker ==> end.offset <= m.offset
      else end == End(|text|, AtEndOfFile)
    else if t.endPolicy == "explicit_end_marker" then
      var pat := if t.endMarker != "" then t.endMarker else "<!-- core:index:end id=\"" + t.refId + "\" -->";
      && end.reason == AtEndMarker && start <= end.offset && OccursAt(text, pat, end.offset)
      && forall j :: start <= j < end.offset ==> !OccursAt(text, pat, j)
    else if t.endPolicy == "max_bytes" then
      && end.reason == AtMaxBytes && end.offset <= start + t.maxBytes && end.offset <= |text|
      && (end.offset == start + t.maxBytes || end.offset == |text|)
    else end == End(|text|, AtEndOfFile)
  }

  /** A successful read starts and ends where the index entry says. */
  lemma LocationIsDeclared(text: string, starts: seq<Match>, ends: seq<Match>, t: Target, l: Location)
    requires Locate(text, starts, ends, t) == Ok(l)
    ensures StartsAt(text, t, l.marker, l.start) && EndsAt(text, starts, t, l.marker, l.start, l.end)
  {
    assert FirstAt(text, t.startMarker, l.marker);
    BreaksAreSkipped(text, l.marker + |t.startMarker|);
    NearestForeign(starts, ends, t.refId, l.marker);
    ForeignIff(starts, t, l.marker);
  }

  lemma {:induction false} BreaksAreSkipped(text: string, i: nat)
    requires i <= |text|
    ensures var r := SkipBreaks(text, i);
            (forall j :: i <= j < r ==> text[j] in "\n\r") && (r < |text| ==> text[r] !in "\n\r")
  {
    forall c ensures IsBreak(c) <==> c in "\n\r" {}
  }

  lemma ForeignIff(starts: seq<Match>, t: Target, marker: nat)
    ensures forall m :: m in starts ==> (Foreign(m, t.refId, marker) <==> m.id != t.refId && m.offset > marker)
  {
  }

  /** body is the piece without the line breaks and spaces at its end. */
  ghost predicate Trimmed(piece: string, body: string) {
    && body <= piece && (body != "" ==> body[|body| - 1] !in "\n\r ")
    && forall i :: |body| <= i < |piece| ==> piece[i] in "\n\r "
  }

  /** The window holds the trimmed text between start and end, or what its first maxBytes bytes decode to. */
  ghost predicate Holds(text: string, t: Target, sha256: seq<int> -> string, start: nat, end: End, body: string,
                        w: Window)
    requires start <= |text| && end.offset <= |text|
  {
    var piece := if start < end.offset then text[start..end.offset] else "";
    && Trimmed(piece, body) && w.start == start
    && (if |EncodeAll(body)| > t.maxBytes then
          w.content == DecodeReplace(EncodeAll(body)[..t.maxBytes]) && w.end == start + t.maxBytes
          && w.reason == AtMaxBytes
        else w.content == body && w.end == end.offset - (|piece| - |body|) && w.reason == end.reason)
    && w.bytesRead == |EncodeAll(w.content)| && w.fingerprint == "sha256:" + sha256(EncodeAll(w.content))
    && (w.drifted <==> t.expected != "" && w.fingerprint != t.expected)
  }

  lemma {:induction false} TrailsAreTrimmed(piece: string)
    ensures Trimmed(piece, StripRight(piece, IsTrail))
  {
    StripRightCuts(piece, IsTrail);
    forall c ensures IsTrail(c) <==> c in "\n\r " {}
  }

  /** The window of a successful read, without reference to how it is computed. */
  lemma ReadIsDeclared(text: string, starts: seq<Match>, ends: seq<Match>, t: Target, sha256: seq<int> -> string)
    returns (l: Location, body: string)
    requires MatchesIn(text, starts) && Read(text, starts, ends, t, sha256).Ok?
    ensures StartsAt(text, t, l.marker, l.start) && EndsAt(text, starts, t, l.marker, l.start, l.end)
    ensures l.start <= |text| && l.end.offset <= |text|
    ensures Holds(text, t, sha256, l.start, l.end, body, Read(text, starts, ends, t, sha256).value)
  {
    l := Locate(text, starts, ends, t).value;
    LocationIsDeclared(text, starts, ends, t, l);
    EndInText(text, starts, ends, t, l);
    body := Body(text, l.start, l.end.offset);
    TrailsAreTrimmed(Slice(text, l.start, l.end.offset));
  }

  // ---- What a window holds ---------------------------------------------------------

  ghost predicate MatchesIn(text: string, starts: seq<Match>) {
    forall m :: m in starts ==> m.offset < |text|
  }

  /** A start marker of another reference that begins inside the start marker or the line breaks
      behind it. */
  ghost predicate Spanned(starts: seq<Match>, t: Target, l: Location) {
    t.endPolicy == "next_marker" && exists m :: m in starts && Foreign(m, t.refId, l.marker) && m.offset < l.start
  }

  /** A successful read, with the place it reads from and the window it gives. */
  ghost predicate ReadAt(text: string, starts: seq<Match>, ends: seq<Match>, t: Target, sha256: seq<int> -> string,
                         l: Location, w: Window)
  {
    Locate(text, starts, ends, t) == Ok(l) && Read(text, starts, ends, t, sha256) == Ok(w)
  }

  lemma EndInText(text: string, starts: seq<Match>, ends: seq<Match>, t: Target, l: Location)
    requires MatchesIn(text, starts) && Locate(text, starts, ends, t) == Ok(l)
    ensures
      && l.marker < l.start <= |text| && l.end.offset <= |text|
      && (l.end.offset < l.start <==> Spanned(starts, t, l))
  {
    NearestForeign(starts, ends, t.refId, l.marker);
    if t.endPolicy == "next_marker" && FirstForeign(AllMarkers(starts, ends), t.refId, l.marker).Some? {
      var m :| m in starts && Foreign(m, t.refId, l.marker) && m.offset == l.end.offset;
      assert m.offset < |text|;
    }
  }

  lemma UncutSlice(text: string, start: nat, end: End, t: Target, sha256: seq<int> -> string)
    requires start <= |text| && end.offset <= |text| && !Truncated(text, start, end.offset, t)
    ensures var w := Finish(text, start, end, t, sha256);
            && w.content == Slice(text, start, w.end) && (start <= end.offset <==> start <= w.end)
            && (start <= w.end ==> w.end <= end.offset && w.content == text[start..w.end])
            && (w.content != "" ==> !IsTrail(w.content[|w.content| - 1]))
            && forall i :: start <= w.end <= i < end.offset ==> IsTrail(text[i])
  {
    var piece := Slice(text, start, end.offset);
    StripRightCuts(piece, IsTrail);
    var w := Finish(text, start, end, t, sha256);
    if start <= end.offset {
      assert |piece| == end.offset - start;
      forall i | w.end <= i < end.offset ensures IsTrail(text[i]) {
        assert text[i] == piece[i - start];
      }
    }
  }

  /** A window that the limit does not touch is the slice of the file between its two offsets,
      and these are in order unless the start marker spans another one. Only line breaks and
      spaces are dropped in front of the end, and all of them are. */
  lemma WindowIsSlice(text: string, starts: seq<Match>, ends: seq<Match>, t: Target, sha256: seq<int> -> string,
                      l: Location, w: Window)
    requires MatchesIn(text, starts) && ReadAt(text, starts, ends, t, sha256, l, w)
    requires !Truncated(text, l.start, l.end.offset, t)
    ensures
      && w.content == Slice(text, w.start, w.end)
      && (w.start <= w.end <==> !Spanned(starts, t, l))
      && (w.start <= w.end ==> w.end <= l.end.offset <= |text| && w.content == text[w.start..w.end])
      && (w.content != "" ==> !IsTrail(w.content[|w.content| - 1]))
      && (forall i :: w.start <= w.end <= i < l.end.offset ==> 0 <= i < |text| && IsTrail(text[i]))
      && w.bytesRead <= t.maxBytes && w.reason == l.end.reason
  {
    EndInText(text, starts, ends, t, l);
    UncutSlice(text, l.start, l.end, t, sha256);
  }

  /** Which characters and bytes are left when the limit cuts the text. */
  lemma {:induction false} CutContent(body: string, max: nat)
    requires |EncodeAll(body)| > max
    ensures var k, part, c := WholeChars(body, max), Leftover(body, max), DecodeReplace(EncodeAll(body)[..max]);
            && k < |body| && part < 4 && k + part <= max
            && c == body[..k] + (if part == 0 then "" else [REPLACEMENT])
            && |EncodeAll(c)| == max - part + (if part == 0 then 0 else 3)
  {
    DecodeCut(body, max);
    CutBytes(body, max);
    var k := WholeChars(body, max);
    EncodeAppends(body[..k], [REPLACEMENT]);
    assert body[..k] + "" == body[..k];
    assert [REPLACEMENT][1..] == "";
    assert |EncodeAll([REPLACEMENT])| == |Encode(REPLACEMENT)| == 3;
    AsciiBytes(body[..k]);
  }

  /** The limit is kept up to two bytes, and it is kept exactly unless the cut leaves one or two bytes
      of a character, which the replacement character outgrows. */
  lemma ByteLimit(text: string, starts: seq<Match>, ends: seq<Match>, t: Target, sha256: seq<int> -> string,
                      l: Location, w: Window)
    requires ReadAt(text, starts, ends, t, sha256, l, w)
    ensures
      && w.bytesRead <= t.maxBytes + 2
      && (w.bytesRead > t.maxBytes <==>
            && Truncated(text, l.start, l.end.offset, t)
            && 1 <= Leftover(Body(text, l.start, l.end.offset), t.maxBytes) <= 2)
      && (Truncated(text, l.start, l.end.offset, t) ==> w.reason == AtMaxBytes && w.end == w.start + t.maxBytes)
  {
    if Truncated(text, l.start, l.end.offset, t) {
      CutContent(Body(text, l.start, l.end.offset), t.maxBytes);
    }
  }

  lemma {:induction false} AsciiCut(s: string, m: nat)
    requires m <= |s| && IsAscii(s[..m])
    ensures WholeChars(s, m) == m && Leftover(s, m) == 0
  {
    if m > 0 {
      assert s[..m][0] == s[0];
      var tail := s[1..][..m - 1];
      forall i | 0 <= i < |tail| ensures tail[i] as int < 0x80 {
        assert tail[i] == s[..m][i + 1];
      }
      AsciiCut(s[1..], m - 1);
    }
  }

  /** ASCII text needs more than max characters for more than max bytes. */
  lemma AsciiOutgrows(rest: string, n: nat, max: nat)
    requires n <= |rest| && |EncodeAll(rest[..n])| > max
    requires max <= |rest| && IsAscii(rest[..max])
    ensures n > max
  {
    if n <= max {
      AsciiBytes(rest[..n]);
    }
  }

  /** Whether a cut of `body`, which stands at the front of `rest`, leaves exactly the next max
      characters: they are ASCII, or the cut goes through a replacement character that is the last of
      them, so that the one put in its place is the one that stood there. */
  predicate CutIsFaithful(rest: string, body: string, max: nat) {
    || (max <= |rest| && IsAscii(rest[..max]))
    || (var k := WholeChars(body, max);
        && Leftover(body, max) > 0 && k < |body| && body[k] == REPLACEMENT
        && k + 1 == if max <= |rest| then max else |rest|)
  }

  /** ASCII text is cut between characters, after max of them. */
  lemma {:induction false} AsciiIsCutClean(rest: string, body: string, max: nat)
    requires body <= rest && |EncodeAll(body)| > max && max <= |rest| && IsAscii(rest[..max])
    ensures WholeChars(body, max) == max && Leftover(body, max) == 0
  {
    assert body == rest[..|body|];
    AsciiOutgrows(rest, |body|, max);
    assert body[..max] == rest[..max];
    AsciiCut(body, max);
  }

  /** A cut between characters leaves max characters exactly when they are ASCII. */
  lemma {:induction false} CleanCutKeepsIff(rest: string, body: string, max: nat)
    requires body <= rest && |EncodeAll(body)| > max && Leftover(body, max) == 0
    ensures body[..WholeChars(body, max)] == Slice(rest, 0, max) <==> max <= |rest| && IsAscii(rest[..max])
  {
    var k := WholeChars(body, max);
    CutBytes(body, max);
    assert body[..k] == rest[..k];
    AsciiBytes(body[..k]);
    if max <= |rest| && IsAscii(rest[..max]) { AsciiIsCutClean(rest, body, max); }
  }

  /** A cut through a character puts back what was there exactly when that is a replacement character and
      the last one that the slice has. */
  lemma {:induction false} TornCutKeepsIff(rest: string, body: string, max: nat)
    requires body <= rest && WholeChars(body, max) < |body|
    ensures var k := WholeChars(body, max);
            body[..k] + [REPLACEMENT] == Slice(rest, 0, max)
            <==> body[k] == REPLACEMENT && k + 1 == if max <= |rest| then max else |rest|
  {
    var k := WholeChars(body, max);
    var c := body[..k] + [REPLACEMENT];
    assert body[..k] == rest[..k] && body[k] == rest[k];
    if c == Slice(rest, 0, max) { assert c[k] == rest[k]; }
    if body[k] == REPLACEMENT { assert rest[..k + 1] == rest[..k] + [rest[k]]; }
  }

  lemma {:induction false} CutKeepsIff(rest: string, body: string, max: nat)
    requires body <= rest && |EncodeAll(body)| > max
    ensures DecodeReplace(EncodeAll(body)[..max]) == Slice(rest, 0, max) <==> CutIsFaithful(rest, body, max)
  {
    var k := WholeChars(body, max);
    CutContent(body, max);
    if Leftover(body, max) == 0 {
      assert body[..k] + "" == body[..k];
      CleanCutKeepsIff(rest, body, max);
    } else {
      TornCutKeepsIff(rest, body, max);
      if max <= |rest| && IsAscii(rest[..max]) { AsciiIsCutClean(rest, body, max); }
    }
  }

  lemma FinishCut(text: string, start: nat, end: End, t: Target, sha256: seq<int> -> string)
    requires start <= end.offset <= |text| && Truncated(text, start, end.offset, t)
    ensures var w := Finish(text, start, end, t, sha256);
            w.content == Slice(text, w.start, w.end)
            <==> CutIsFaithful(text[start..], Body(text, start, end.offset), t.maxBytes)
  {
    var w := Finish(text, start, end, t, sha256);
    var body := Body(text, start, end.offset);
    BodyInFront(text, start, end.offset);
    var rest := text[start..];
    CutKeepsIff(rest, body, t.maxBytes);
    assert Slice(rest, 0, t.maxBytes) == Slice(text, start, start + t.maxBytes);
    assert w.content == DecodeReplace(EncodeAll(body)[..t.maxBytes]);
    assert w.start == start && w.end == start + t.maxBytes;
  }

  lemma BodyInFront(text: string, start: nat, end: nat)
    requires start <= end <= |text|
    ensures Body(text, start, end) <= text[start..]
    ensures |Body(text, start, end)| <= |Slice(text, start, end)| == end - start
  {
    BodyIsPrefix(text, start, end);
    assert Slice(text, start, end) == text[start..][..end - start];
  }

  /** A cut window is the slice of the file between its two offsets exactly when the cut is faithful. */
  lemma CutWindowIsSliceIff(text: string, starts: seq<Match>, ends: seq<Match>, t: Target, sha256: seq<int> -> string,
                            l: Location, w: Window)
    requires MatchesIn(text, starts) && ReadAt(text, starts, ends, t, sha256, l, w)
    requires Truncated(text, l.start, l.end.offset, t)
    ensures w.content == Slice(text, w.start, w.end)
            <==> CutIsFaithful(text[l.start..], Body(text, l.start, l.end.offset), t.maxBytes)
  {
    EndInText(text, starts, ends, t, l);
    FinishCut(text, l.start, l.end, t, sha256);
  }

  /** Without replacement characters in the file, only ASCII survives a cut in place. */
  lemma CutNeedsAscii(rest: string, body: string, max: nat)
    requires body <= rest && REPLACEMENT !in rest
    ensures CutIsFaithful(rest, body, max) <==> max <= |rest| && IsAscii(rest[..max])
  {
    var k := WholeChars(body, max);
    if k < |body| { assert body[k] == rest[k]; }
  }

  /** The second case does occur: a replacement character that the limit cuts is not ASCII, and what is
      read is still what stands in the file. */
  lemma CutKeepsReplacement()
    ensures var rest := [REPLACEMENT];
            && |EncodeAll(rest)| > 1 && !IsAscii(rest[..1]) && CutIsFaithful(rest, rest, 1)
            && DecodeReplace(EncodeAll(rest)[..1]) == Slice(rest, 0, 1)
  {
    var rest := [REPLACEMENT];
    assert rest[0] as int >= 0x80 && rest[..1][0] == rest[0];
    assert rest[..1] == rest && rest[1..] == "";
    assert |EncodeAll(rest)| == |Encode(REPLACEMENT)| == 3;
    CutKeepsIff(rest, rest, 1);
  }

  lemma AsciiSlice(text: string, start: nat, end: End, t: Target, sha256: seq<int> -> string)
    requires start <= end.offset <= |text| && IsAscii(Body(text, start, end.offset))
    ensures var w := Finish(text, start, end, t, sha256);
            && w.start <= w.end <= end.offset
            && w.content == text[w.start..w.end]
            && w.bytesRead == w.end - w.start <= t.maxBytes
  {
    var body, max := Body(text, start, end.offset), t.maxBytes;
    BodyInFront(text, start, end.offset);
    AsciiBytes(body);
    if Truncated(text, start, end.offset, t) {
      assert |body| > max && body[..|body|] == body;
      AsciiCut(body, max);
      CutContent(body, max);
    } else {
      assert body[..|body|] == body;
    }
  }

  /** A window of ASCII text is a slice of the file, is as many bytes long as characters, and keeps
      the limit. */
  lemma AsciiWindow(text: string, starts: seq<Match>, ends: seq<Match>, t: Target, sha256: seq<int> -> string,
                      l: Location, w: Window)
    requires MatchesIn(text, starts) && ReadAt(text, starts, ends, t, sha256, l, w)
    requires IsAscii(Body(text, l.start, l.end.offset)) && !Spanned(starts, t, l)
    ensures
      && w.start <= w.end <= l.end.offset <= |text|
      && w.content == text[w.start..w.end]
      && w.bytesRead == w.end - w.start <= t.maxBytes
  {
    EndInText(text, starts, ends, t, l);
    AsciiSlice(text, l.start, l.end, t, sha256);
  }

  /** Under next_marker, the window runs over the start marker of another reference exactly when the
      limit cuts the text although the window is shorter, counted in characters. */
  lemma RunsOverIff(text: string, starts: seq<Match>, ends: seq<Match>, t: Target, sha256: seq<int> -> string,
                      l: Location, w: Window)
    requires MatchesIn(text, starts) && ReadAt(text, starts, ends, t, sha256, l, w) && t.endPolicy == "next_marker"
    ensures (exists m :: m in starts && Foreign(m, t.refId, l.marker) && w.start <= m.offset < w.end) <==>
      && l.end.reason == AtNextMarker && Truncated(text, l.start, l.end.offset, t)
      && l.end.offset - l.start < t.maxBytes
  {
    EndInText(text, starts, ends, t, l);
    NearestForeign(starts, ends, t.refId, l.marker);
    BodyIsPrefix(text, l.start, l.end.offset);
    if l.end.reason == AtNextMarker {
      var m :| m in starts && Foreign(m, t.refId, l.marker) && m.offset == l.end.offset;
      assert l.start > l.end.offset ==> |Body(text, l.start, l.end.offset)| == 0;
    }
  }

  /** In particular it never does over ASCII text. */
  lemma AsciiStopsBeforeMarkers(text: string, starts: seq<Match>, ends: seq<Match>, t: Target,
                                sha256: seq<int> -> string,
                                l: Location, w: Window)
    requires MatchesIn(text, starts) && ReadAt(text, starts, ends, t, sha256, l, w) && t.endPolicy == "next_marker"
    requires IsAscii(Body(text, l.start, l.end.offset))
    ensures forall m :: m in starts && Foreign(m, t.refId, l.marker) ==> !(w.start <= m.offset < w.end)
  {
    RunsOverIff(text, starts, ends, t, sha256, l, w);
    AsciiBytes(Body(text, l.start, l.end.offset));
    BodyIsPrefix(text, l.start, l.end.offset);
    EndInText(text, starts, ends, t, l);
  }

  // ---- What a fingerprint pins -----------------------------------------------------

  /** Reading with the fingerprint of an earlier window reports drift exactly when the content is
      another one, whatever the files and markers were. */
  lemma DriftIff(w: Window, text: string, starts: seq<Match>, ends: seq<Match>, t: Target,
                 sha256: seq<int> -> string)
    requires Read(text, starts, ends, t, sha256).Ok?
    requires t.expected == Fingerprint(sha256, w.content)
    requires NoCollision(sha256, EncodeAll(w.content), EncodeAll(Read(text, starts, ends, t, sha256).value.content))
    ensures var r := Read(text, starts, ends, t, sha256).value;
            r.drifted <==> r.content != w.content
  {
    var r := Read(text, starts, ends, t, sha256).value;
    assert Fingerprint(sha256, r.content)[|"sha256:"|..] == sha256(EncodeAll(r.content));
    assert Fingerprint(sha256, w.content)[|"sha256:"|..] == sha256(EncodeAll(w.content));
    DecodeEncode(r.content);
    DecodeEncode(w.content);
  }

  // ---- The limit is not always kept ------------------------------------------------

  /** Three characters of three bytes each, read with a limit of five: six bytes are reported, the
      window runs over the marker behind the text, and it ends behind the end of the file. */
  lemma LimitIsNotAlwaysKept(sha256: seq<int> -> string)
    ensures var text := "S" + "\U{20AC}\U{20AC}\U{20AC}" + "<";
            var t := Target("a", "S", "next_marker", "", 5, "");
            var r := Read(text, [Match("b", 4)], [], t, sha256);
            r.Ok? && r.value.bytesRead == 6 && r.value.start == 1 && r.value.end == 6 && |text| == 5
  {
    var text := "S" + "\U{20AC}\U{20AC}\U{20AC}" + "<";
    var t := Target("a", "S", "next_marker", "", 5, "");
    var e := "\U{20AC}\U{20AC}\U{20AC}";
    assert OccursAt(text, "S", 0);
    var starts := [Match("b", 4)];
    NearestForeign(starts, [], "a", 0);
    assert FindFrom(text, "S", 0) == Some(0);
    assert FindFrom(text, "S", 1).None? by {
      forall i | 1 <= i ensures !OccursAt(text, "S", i) {
        if i <= 4 { assert text[i..i + 1][0] == text[i]; }
      }
    }
    assert Count(text, "S", 0) == 1;
    assert SkipBreaks(text, 1) == 1;
    assert starts[0] in starts && Foreign(starts[0], "a", 0);
    assert FirstForeign(AllMarkers(starts, []), "a", 0) == Some(4);
    var l := Locate(text, starts, [], t).value;
    assert l == Location(0, 1, End(4, AtNextMarker));
    assert text[1..4] == e;
    assert Slice(text, 1, 4) == e;
    assert Body(text, 1, 4) == e;
    CutContent(e, 5);
  }
}
