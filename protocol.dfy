/** What the request handler makes of the bytes a client sends: the text
    read up to the "end" sentinel, the maze, start and goal lines parsed out
    of it, and the cache key built from their hashes. */
module Protocol {
  import opened Wrappers
  import opened Text

  // ---------------------------------------------------------------------
  // Reading the request

  /** What one read(2) on the client socket gives: the bytes it placed in the
      zeroed buffer, or a failure (a negative byte count). End of stream is
      `Received("")`. */
  datatype ReadResult = Received(bytes: string) | ReadError

  /** `data_read = buffer`: the buffer taken as a C string, up to its first
      NUL character. */
  function CString(bytes: string): (r: string)
    ensures r <= bytes && '\0' !in r
    ensures '\0' !in bytes ==> r == bytes
    ensures |r| < |bytes| ==> bytes[|r|] == '\0'
  {
    bytes[..FindChar(bytes, '\0')]
  }

  /** The read loop stops after a read that fails or whose own text holds
      the sentinel "end". */
  predicate StopsReading(rr: ReadResult): (stops: bool)
    ensures stops && rr.Received? ==> Contains(rr.bytes, "end")
  {
    if rr.ReadError? then true
    else if Contains(CString(rr.bytes), "end") then
      ContainsInLonger(CString(rr.bytes), rr.bytes, "end");
      true
    else false
  }

  /** The index of the read the loop stops after, `|chunks|` if none stops it. */
  function FirstStop(chunks: seq<ReadResult>): (k: nat)
    ensures k <= |chunks|
    ensures k < |chunks| ==> StopsReading(chunks[k])
    ensures forall j :: 0 <= j < k ==> !StopsReading(chunks[j])
  {
    if chunks == [] then 0
    else if StopsReading(chunks[0]) then 0
    else 1 + FirstStop(chunks[1..])
  }

  /** `all_data` after the given chunks: their C strings, in order. */
  function Accumulated(chunks: seq<ReadResult>): (r: string)
    ensures '\0' !in r
  {
    if chunks == [] then ""
    else
      Accumulated(chunks[..|chunks| - 1]) +
      (match chunks[|chunks| - 1]
       case Received(b) => CString(b)
       case ReadError => "")
  }

  /** One more read received appends its C string. */
  lemma AccumulatedStep(chunks: seq<ReadResult>, i: nat)
    requires i < |chunks| && chunks[i].Received?
    ensures Accumulated(chunks[..i + 1]) == Accumulated(chunks[..i]) + CString(chunks[i].bytes)
  {
    assert chunks[..i + 1][..i] == chunks[..i];
  }

  /** The text Read returns once `received`, the reads up to the one that
      stops the loop, have come in: "" when the last of them failed,
      otherwise everything accumulated, cut before its first "end", with
      every '\r' removed. */
  function RequestText(received: seq<ReadResult>): (r: string)
    requires received != []
    ensures '\r' !in r
  {
    if received[|received| - 1].ReadError? then ""
    else Without(BeforeFirst(Accumulated(received), "end"), '\r')
  }

  /** The text Read returns for the reads a client's connection gives. */
  function ReadText(chunks: seq<ReadResult>): (r: string)
    requires FirstStop(chunks) < |chunks|
    ensures '\r' !in r
  {
    RequestText(chunks[..FirstStop(chunks) + 1])
  }

  /** Reads after the one that stops the loop are never looked at. */
  lemma {:induction false} FirstStopOfExtended(chunks: seq<ReadResult>, more: seq<ReadResult>)
    requires FirstStop(chunks) < |chunks|
    ensures FirstStop(chunks + more) == FirstStop(chunks)
  {
    assert (chunks + more)[0] == chunks[0];
    if !StopsReading(chunks[0]) {
      assert (chunks + more)[1..] == chunks[1..] + more;
      FirstStopOfExtended(chunks[1..], more);
    }
  }

  /** What the client sends after the read that stops the loop does not
      change the request text. */
  lemma ReadTextIgnoresLaterReads(chunks: seq<ReadResult>, more: seq<ReadResult>)
    requires FirstStop(chunks) < |chunks|
    ensures FirstStop(chunks + more) < |chunks + more|
    ensures ReadText(chunks + more) == ReadText(chunks)
  {
    FirstStopOfExtended(chunks, more);
    var k := FirstStop(chunks);
    assert (chunks + more)[..k + 1] == chunks[..k + 1];
  }

  /** In `t + "end"`, where `t` holds no "end", the first "end" is the
      appended one: no occurrence can straddle the seam. */
  lemma SentinelFoundAtSeam(t: string)
    requires !Contains(t, "end")
    ensures Find(t + "end", "end") == Some(|t|)
  {
    var s := t + "end";
    assert s[|t|..|t| + 3] == "end";
    assert OccursAt(s, "end", |t|);
    forall j | 0 <= j < |t|
      ensures !OccursAt(s, "end", j)
    {
      if j + 3 <= |t| {
        assert s[j..j + 3] == t[j..j + 3];
        assert !OccursAt(t, "end", j);
      } else {
        // the window runs into the appended "end": its 'e' sits where
        // "end" has 'n' or 'd'
        var k := |t| - j;
        assert k == 1 || k == 2;
        assert s[j..j + 3][k] == s[|t|] == 'e';
        assert "end"[k] != 'e';
      }
    }
  }

  /** Text and sentinel without a NUL are read whole. */
  lemma CStringOfSentinelled(t: string)
    requires '\0' !in t
    ensures CString(t + "end") == t + "end"
  {
    var s := t + "end";
    forall j | 0 <= j < |s| ensures s[j] != '\0' {
      if j < |t| { assert s[j] == t[j]; }
    }
  }

  /** Cutting `t + "end"` before its first "end" leaves `t`. */
  lemma BeforeSentinel(t: string)
    requires !Contains(t, "end")
    ensures Contains(t + "end", "end") && BeforeFirst(t + "end", "end") == t
  {
    SentinelFoundAtSeam(t);
    assert (t + "end")[..|t|] == t;
  }

  /** A client that sends its request text and the sentinel in one read gets
      that text back, when the text holds no NUL, no '\r' and no "end". */
  lemma ReadOfOneChunk(t: string)
    requires '\0' !in t && '\r' !in t && !Contains(t, "end")
    ensures FirstStop([Received(t + "end")]) == 0
    ensures ReadText([Received(t + "end")]) == t
  {
    var chunks := [Received(t + "end")];
    CStringOfSentinelled(t);
    BeforeSentinel(t);
    assert FirstStop(chunks) == 0 by {
      assert StopsReading(chunks[0]);
    }
    assert Accumulated(chunks) == t + "end" by {
      assert chunks[..0] == [];
    }
    assert chunks[..1] == chunks;
  }

  /** The sentinel is looked for in each read on its own: a client whose
      "end" arrives split over two reads has not stopped the loop, though
      the text accumulated so far holds "end". */
  lemma SentinelSplitOverReads()
    ensures var chunks := [Received("en"), Received("d")];
      && FirstStop(chunks) == |chunks|
      && Contains(Accumulated(chunks), "end")
  {
    var chunks := [Received("en"), Received("d")];
    assert CString("en") == "en" && CString("d") == "d";
    assert !OccursAt("en", "end", 0) && !OccursAt("en", "end", 1) && !OccursAt("en", "end", 2);
    assert !OccursAt("d", "end", 0) && !OccursAt("d", "end", 1);
    assert !StopsReading(chunks[0]) && !StopsReading(chunks[1]);
    assert chunks[1..][1..] == [];
    assert chunks[..1] == [Received("en")] && chunks[..1][..0] == [];
    assert Accumulated(chunks) == "en" + "d" == "end";
    assert OccursAt("end", "end", 0);
  }

  // ---------------------------------------------------------------------
  // Parsing the request

  /** A problem as the handler hands it to the solver. */
  datatype Request = Request(maze: string, start: string, goal: string)

  /** The last line is the goal, the one before it the start, and all
      earlier lines, joined by '\n' with none after the last, the maze. Fewer
      than three lines is no request. */
  function ParseRequest(data: string): (r: Option<Request>)
    ensures r.Some? <==> |Lines(data)| >= 3
    ensures r.Some? ==> '\n' !in r.value.start && '\n' !in r.value.goal
  {
    var ls := Lines(data);
    if |ls| < 3 then None
    else Some(Request(Join(ls[..|ls| - 2], "\n"), ls[|ls| - 2], ls[|ls| - 1]))
  }

  /** A request sent as maze rows, start line and goal line, each ended by
      '\n', parses back into those rows, start and goal. */
  lemma ParseRequestOfLines(rows: seq<string>, start: string, goal: string)
    requires |rows| >= 1
    requires forall k :: 0 <= k < |rows| ==> '\n' !in rows[k]
    requires '\n' !in start && '\n' !in goal
    ensures ParseRequest(Terminated(rows + [start, goal], "\n")) == Some(Request(Join(rows, "\n"), start, goal))
  {
    var all := rows + [start, goal];
    forall k | 0 <= k < |all| ensures '\n' !in all[k] {
      if k >= |rows| {
        assert all[k] == [start, goal][k - |rows|];
      }
    }
    var data := Terminated(all, "\n");
    LinesOfTerminated(all);
    assert all[..|all| - 2] == rows && all[|all| - 2] == start && all[|all| - 1] == goal;
    assert ParseRequest(data) == Some(Request(Join(all[..|all| - 2], "\n"), all[|all| - 2], all[|all| - 1]));
  }

  /** The three fields of a parsed request, joined by '\n', are all its
      lines joined by '\n'. */
  lemma ParsedFieldsJoinLines(data: string)
    requires ParseRequest(data).Some?
    ensures var req := ParseRequest(data).value;
      req.maze + "\n" + req.start + "\n" + req.goal == Join(Lines(data), "\n")
  {
    var ls := Lines(data);
    var n := |ls|;
    var rows, last := ls[..n - 2], [ls[n - 2], ls[n - 1]];
    assert ls == rows + last;
    JoinAppend(rows, last, "\n");
    assert Join(last, "\n") == ls[n - 2] + "\n" + ls[n - 1];
  }

  /** Parsing loses nothing: maze, start and goal joined by '\n' are the
      request text, less a final '\n'. */
  lemma ParseRequestKeepsText(data: string)
    requires ParseRequest(data).Some?
    ensures var req := ParseRequest(data).value;
      req.maze + "\n" + req.start + "\n" + req.goal ==
        if data[|data| - 1] == '\n' then data[..|data| - 1] else data
  {
    ParsedFieldsJoinLines(data);
    JoinOfLines(data);
  }

  // ---------------------------------------------------------------------
  // The cache key

  /** The key of a problem: the decimal hashes of maze, start and goal,
      separated by commas. `hash` stands for std::hash<std::string>. */
  function ProblemKey(hash: string -> nat, req: Request): (key: string)
    ensures Fields(key, ',') ==
      [NatToString(hash(req.maze)), NatToString(hash(req.start)), NatToString(hash(req.goal))]
  {
    var m, s, g := NatToString(hash(req.maze)), NatToString(hash(req.start)), NatToString(hash(req.goal));
    DigitsHaveNo(m, ',');
    DigitsHaveNo(s, ',');
    DigitsHaveNo(g, ',');
    assert Join([m, s, g], [',']) == m + "," + s + "," + g by {
      assert [m, s, g][1..] == [s, g] && [s, g][1..] == [g];
      assert Join([s, g], [',']) == s + "," + g;
      assert Join([m, s, g], [',']) == m + "," + (s + "," + g);
    }
    FieldsOfJoin([m, s, g], ',');
    m + "," + s + "," + g
  }

  /** Two texts that each start with a comma-free field and a comma agree on
      the field and on the rest only together. */
  lemma SplitAtFirstComma(a1: string, r1: string, a2: string, r2: string)
    requires ',' !in a1 && ',' !in a2
    requires a1 + "," + r1 == a2 + "," + r2
    ensures a1 == a2 && r1 == r2
  {
    var s1, s2 := a1 + "," + r1, a2 + "," + r2;
    assert s1[|a1|] == ',' && s2[|a2|] == ',';
    assert forall i :: 0 <= i < |a1| ==> s1[i] == a1[i];
    assert forall i :: 0 <= i < |a2| ==> s2[i] == a2[i];
    assert |a1| == |a2|;
    assert a1 == s1[..|a1|] && a2 == s2[..|a2|];
    assert r1 == s1[|a1| + 1..] && r2 == s2[|a2| + 1..];
  }

  /** Two problems get the same key exactly when their mazes, their starts
      and their goals hash alike: the key keeps each of the three hashes. */
  lemma ProblemKeyMatches(hash: string -> nat, p: Request, q: Request)
    ensures ProblemKey(hash, p) == ProblemKey(hash, q) <==>
      hash(p.maze) == hash(q.maze) && hash(p.start) == hash(q.start) && hash(p.goal) == hash(q.goal)
  {
    if ProblemKey(hash, p) == ProblemKey(hash, q) {
      var m1, s1, g1 := NatToString(hash(p.maze)), NatToString(hash(p.start)), NatToString(hash(p.goal));
      var m2, s2, g2 := NatToString(hash(q.maze)), NatToString(hash(q.start)), NatToString(hash(q.goal));
      assert m1 + "," + s1 + "," + g1 == m1 + "," + (s1 + "," + g1);
      assert m2 + "," + s2 + "," + g2 == m2 + "," + (s2 + "," + g2);
      SplitAtFirstComma(m1, s1 + "," + g1, m2, s2 + "," + g2);
      SplitAtFirstComma(s1, g1, s2, g2);
      NatToStringInjective(hash(p.maze), hash(q.maze));
      NatToStringInjective(hash(p.start), hash(q.start));
      NatToStringInjective(hash(p.goal), hash(q.goal));
    }
  }
}
