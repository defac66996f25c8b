/** The client handler of the maze server: it reads one request from a
    connection, looks its problem up in the cache, runs the search on a miss
    and replies with the rendered path. */
module ClientHandler {
  import opened Wrappers
  import opened Text
  import opened Rendering
  import opened Protocol

  /** What the search gives for a problem: the goal state, whose chain of
      predecessors is the path, or an exception. */
  datatype SolveOutcome = Solved(goal: State) | SearchException

  /** How the handling of one connection ends. Only `Replied` sends anything;
      every outcome closes the connection. */
  datatype Outcome =
    | EmptyRequest          // Read gave "" (a failed read, or nothing before "end")
    | BadRequest            // fewer than three lines: undefined behaviour in the handler
    | SearchFailed          // the search threw
    | Replied(reply: string)

  /** The cache manager as the handler uses it: a store from problem keys to
      rendered solutions. */
  class CacheManager {
    var solutions: map<string, string>

    constructor (stored: map<string, string>)
      ensures solutions == stored
    {
      solutions := stored;
    }

    predicate IsSolutionExists(problem: string): (found: bool)
      reads this
      ensures found <==> problem in solutions.Keys
    {
      problem in solutions
    }

    function GetSolution(problem: string): (solution: string)
      reads this
      requires problem in solutions
      ensures solution in solutions.Values
    {
      solutions[problem]
    }

    /** Stores `solution` under `problem`: get after save returns it, and
        every other problem keeps whether it exists and what it maps to. */
    method SaveSolution(problem: string, solution: string)
      modifies this
      ensures solutions == old(solutions)[problem := solution]
      ensures IsSolutionExists(problem) && GetSolution(problem) == solution
      ensures forall q :: q != problem ==> (IsSolutionExists(q) <==> old(IsSolutionExists(q)))
      ensures forall q :: q != problem && old(IsSolutionExists(q)) ==> GetSolution(q) == old(GetSolution(q))
    {
      solutions := solutions[problem := solution];
    }
  }

  class MyClientHandler {
    const cacheManager: CacheManager
    /** std::hash<std::string>, a function this model cannot see into. */
    const hashOfString: string -> nat
    /** A best-first search over the matrix the request describes. */
    const search: Request -> SolveOutcome
    /** Whether the handler's mutex is held. */
    var locked: bool
    /** How many times the search has been run. */
    ghost var searches: nat

    constructor (cacheManager: CacheManager, hashOfString: string -> nat, search: Request -> SolveOutcome)
      ensures this.cacheManager == cacheManager
      ensures this.hashOfString == hashOfString && this.search == search
      ensures !locked && searches == 0
    {
      this.cacheManager := cacheManager;
      this.hashOfString := hashOfString;
      this.search := search;
      locked := false;
      searches := 0;
    }

    /** Reads until a read fails or brings "end"; returns "" on a failure,
        otherwise what came before the first "end" with every '\r' removed. */
    static method Read(chunks: seq<ReadResult>) returns (data: string)
      requires FirstStop(chunks) < |chunks|
      ensures data == ReadText(chunks)
      ensures '\r' !in data
    {
      var isEndReached := false;
      var allData := "";
      var i := 0;
      while !isEndReached
        invariant i <= FirstStop(chunks) + 1
        invariant !isEndReached ==> i <= FirstStop(chunks)
        invariant isEndReached ==> i == FirstStop(chunks) + 1 && chunks[i - 1].Received?
        invariant allData == Accumulated(chunks[..i])
        decreases |chunks| - i
      {
        var chunk := chunks[i];
        if chunk.ReadError? {
          assert i == FirstStop(chunks);
          return "";
        }
        var dataRead := CString(chunk.bytes);
        AccumulatedStep(chunks, i);
        allData := allData + dataRead;
        if Contains(dataRead, "end") {
          isEndReached := true;
        }
        i := i + 1;
      }
      assert chunks[..FirstStop(chunks) + 1] == chunks[..i];
      var actualData := BeforeFirst(allData, "end");
      actualData := Without(actualData, '\r');
      data := actualData;
    }

    /** The lines successive std::getline calls extract from `data`. */
    static method SplitLines(data: string) returns (lines: seq<string>)
      ensures lines == Lines(data)
    {
      lines := [];
      var line := "";
      var i := 0;
      assert line + data[i..] == data;
      while i < |data|
        invariant i <= |data|
        invariant '\n' !in line
        invariant lines + Lines(line + data[i..]) == Lines(data)
      {
        LinesStep(lines, line, data, i);
        if data[i] == '\n' {
          lines := lines + [line];
          line := "";
        } else {
          line := line + [data[i]];
        }
        i := i + 1;
      }
      assert line + data[i..] == line;
      LinesOfOneLine(line);
      if line != [] {
        lines := lines + [line];
      }
    }

    /** Appends every row and a '\n' to the maze text, then drops the last
        '\n' (which needs at least one row). */
    static method JoinMaze(rows: seq<string>) returns (maze: string)
      requires |rows| >= 1
      ensures maze == Join(rows, "\n")
    {
      maze := "";
      var k := 0;
      while k < |rows|
        invariant k <= |rows|
        invariant maze == Terminated(rows[..k], "\n")
      {
        TerminatedSnoc(rows[..k], rows[k], "\n");
        assert rows[..k + 1] == rows[..k] + [rows[k]];
        maze := maze + (rows[k] + "\n");
        k := k + 1;
      }
      assert rows[..k] == rows;
      TerminatedIsJoinThenSep(rows, "\n");
      maze := maze[..|maze| - 1];
    }

    /** The text GetPath puts in front for the step from `previous` to
        `current`: a comma and the token of the first direction test that
        matches, or nothing. */
    static method StepText(previous: State, current: State) returns (token: string)
      ensures token == Prefixed(StepTokens(StepOf(previous), StepOf(current), ""), ",")
      ensures token == "" || token[0] == ','
    {
      StepTokensText(StepOf(previous), StepOf(current), "");
      var currentPos, previousPos := current.pos, previous.pos;
      var cost := IntToString(current.cost);
      token := "";
      if currentPos.row == previousPos.row + 1 {
        token := ",Down (" + cost + ")";
        TokenSpelling(Down, current.cost, "");
      } else if currentPos.row == previousPos.row - 1 {
        token := ",Up (" + cost + ")";
        TokenSpelling(Up, current.cost, "");
      } else if currentPos.col == previousPos.col - 1 {
        token := ",Left (" + cost + ")";
        TokenSpelling(Left, current.cost, "");
      } else if currentPos.col == previousPos.col + 1 {
        token := ",Right (" + cost + ")";
        TokenSpelling(Right, current.cost, "");
      }
    }

    /** Walks from the goal state back to the root, putting each step's
        token in front of what it has so far, then drops the leading comma. */
    static method GetPath(pathEnd: State) returns (result: string)
      ensures result == Render(Chain(pathEnd), "")
      ensures pathEnd.cameFrom.None? ==> result == ""
    {
      var current := pathEnd;
      var previous := current.cameFrom;
      result := "";
      ghost var later: seq<Step> := [];
      while previous.Some?
        invariant previous == current.cameFrom
        invariant Chain(pathEnd) == Chain(current) + later
        invariant result == Prefixed(Tokens([StepOf(current)] + later, ""), ",")
        decreases current
      {
        WalkBack(pathEnd, current, later, "");
        var token := StepText(previous.value, current);
        result := token + result;
        later := [StepOf(current)] + later;
        current := previous.value;
        previous := current.cameFrom;
      }
      ghost var tokens := Tokens(Chain(pathEnd), "");
      if tokens != [] {
        PrefixedIsSepThenJoin(tokens, ",");
      }
      if |result| > 0 {
        result := result[1..];
      }
    }

    /** Handles one connection: read, parse, look up or solve and save, reply. */
    method HandleClient(chunks: seq<ReadResult>) returns (outcome: Outcome)
      requires !locked
      requires FirstStop(chunks) < |chunks|
      modifies this, cacheManager
      ensures !locked
      ensures var data := ReadText(chunks);
        data == "" ==>
          outcome == EmptyRequest && cacheManager.solutions == old(cacheManager.solutions) && searches == old(searches)
      ensures var data := ReadText(chunks);
        data != "" && ParseRequest(data).None? ==>
          outcome == BadRequest && cacheManager.solutions == old(cacheManager.solutions) && searches == old(searches)
      ensures var data := ReadText(chunks);
        data != "" && ParseRequest(data).Some? ==>
          var req := ParseRequest(data).value;
          var key := ProblemKey(hashOfString, req);
          if key in old(cacheManager.solutions) then
            && outcome == Replied(old(cacheManager.solutions)[key] + "\n")
            && cacheManager.solutions == old(cacheManager.solutions)
            && searches == old(searches)
          else
            && searches == old(searches) + 1
            && match search(req)
               case SearchException =>
                 outcome == SearchFailed && cacheManager.solutions == old(cacheManager.solutions)
               case Solved(goal) =>
                 var path := Render(Chain(goal), "");
                 outcome == Replied(path + "\n") && cacheManager.solutions == old(cacheManager.solutions)[key := path]
    {
      var data := Read(chunks);
      if data == [] {
        return EmptyRequest;
      }

      var lines := SplitLines(data);
      if |lines| < 3 {
        // back() on an empty vector or pop_back() on an empty maze: undefined
        return BadRequest;
      }
      ghost var all := lines;
      var goalPos := lines[|lines| - 1];
      lines := lines[..|lines| - 1];
      var startPos := lines[|lines| - 1];
      lines := lines[..|lines| - 1];
      assert lines == all[..|all| - 2] && startPos == all[|all| - 2];
      var maze := JoinMaze(lines);

      var req := Request(maze, startPos, goalPos);
      assert ParseRequest(data) == Some(req);
      var problemText := NatToString(hashOfString(maze)) + "," + NatToString(hashOfString(startPos)) + ","
        + NatToString(hashOfString(goalPos));

      locked := true;
      var result;
      if cacheManager.IsSolutionExists(problemText) {
        result := cacheManager.GetSolution(problemText);
      } else {
        searches := searches + 1;
        match search(req)
        case SearchException =>
          locked := false;
          return SearchFailed;
        case Solved(goal) =>
          result := GetPath(goal);
          cacheManager.SaveSolution(problemText, result);
      }
      locked := false;

      result := result + "\n";
      outcome := Replied(result);
    }

    /** The same request handled twice: once the first call replies, the
        reply is the cached solution of the request's key plus '\n', the
        second call gives the same reply, and the two calls together run
        exactly the searches the first one runs, one on a miss and none on a
        hit. */
    method HandleSameRequestTwice(chunks: seq<ReadResult>) returns (first: Outcome, second: Outcome)
      requires !locked
      requires FirstStop(chunks) < |chunks|
      modifies this, cacheManager
      ensures !locked
      ensures first.Replied? ==> ReadText(chunks) != "" && ParseRequest(ReadText(chunks)).Some?
      ensures first.Replied? ==>
        var key := ProblemKey(hashOfString, ParseRequest(ReadText(chunks)).value);
        && key in cacheManager.solutions
        && first == Replied(cacheManager.solutions[key] + "\n")
        && second == first
        && searches == old(searches) + (if key in old(cacheManager.solutions) then 0 else 1)
    {
      first := HandleClient(chunks);
      second := HandleClient(chunks);
    }
  }
}
