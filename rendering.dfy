/** Search states as the solver returns them, and the reply text a solved
    path is rendered into: one direction token per step, root to goal. */
module Rendering {
  import opened Wrappers
  import opened Text

  /** A maze cell: (row, column), the std::pair<int, int> of a search state. */
  datatype Position = Position(row: int, col: int)

  /** A search state handed back by the solver: its cell, its cumulative cost
      (already cast to int) and the state it was reached from, if any. Being a
      value, a chain of predecessors is finite and acyclic. */
  datatype State = State(pos: Position, cost: int, cameFrom: Option<State>)

  /** One state of a path, without its link. */
  datatype Step = Step(pos: Position, cost: int)

  function StepOf(s: State): Step
  {
    Step(s.pos, s.cost)
  }

  /** The path that ends in `s`, root first. */
  function Chain(s: State): (c: seq<Step>)
    ensures |c| >= 1 && c[|c| - 1] == Step(s.pos, s.cost)
    ensures |c| == 1 <==> s.cameFrom.None?
  {
    (if s.cameFrom.Some? then Chain(s.cameFrom.value) else []) + [Step(s.pos, s.cost)]
  }

  datatype Direction = Down | Up | Left | Right

  function DirectionName(d: Direction): (name: string)
    ensures |name| >= 2 && name[0] in "DULR" && ',' !in name
  {
    match d
    case Down => "Down"
    case Up => "Up"
    case Left => "Left"
    case Right => "Right"
  }

  /** The cell one move away from `p` in direction `d`. */
  function Move(p: Position, d: Direction): Position
  {
    match d
    case Down => Position(p.row + 1, p.col)
    case Up => Position(p.row - 1, p.col)
    case Left => Position(p.row, p.col - 1)
    case Right => Position(p.row, p.col + 1)
  }

  /** `a` and `b` share a side. */
  predicate Adjacent(a: Position, b: Position)
  {
    || (a.row == b.row && (a.col == b.col + 1 || b.col == a.col + 1))
    || (a.col == b.col && (a.row == b.row + 1 || b.row == a.row + 1))
  }

  /** The direction of the step from `from` to `to`, by the first test that
      matches: Down (row + 1), Up (row - 1), Left (column - 1), Right
      (column + 1); None when none does. */
  function StepDirection(from: Position, to: Position): (r: Option<Direction>)
    ensures Adjacent(from, to) ==> r.Some? && Move(from, r.value) == to
  {
    if to.row == from.row + 1 then Some(Down)
    else if to.row == from.row - 1 then Some(Up)
    else if to.col == from.col - 1 then Some(Left)
    else if to.col == from.col + 1 then Some(Right)
    else None
  }

  /** The token for a step in direction `d` arriving with cumulative cost
      `cost`: "Dir (cost)" followed by `trailer`. */
  function Token(d: Direction, cost: int, trailer: string): (t: string)
    ensures DirectionName(d) <= t
    ensures ',' !in trailer ==> ',' !in t
  {
    DirectionName(d) + " (" + IntToString(cost) + ")" + trailer
  }

  /** The tokens the step from `from` to `to` contributes: one, or none when
      no direction test matches. */
  function StepTokens(from: Step, to: Step, trailer: string): (ts: seq<string>)
    ensures |ts| <= 1
    ensures Adjacent(from.pos, to.pos) ==> |ts| == 1
  {
    match StepDirection(from.pos, to.pos)
    case Some(d) => [Token(d, to.cost, trailer)]
    case None => []
  }

  /** The tokens of a path, root to goal. */
  function Tokens(path: seq<Step>, trailer: string): (ts: seq<string>)
    ensures |ts| <= if path == [] then 0 else |path| - 1
  {
    if |path| < 2 then []
    else StepTokens(path[0], path[1], trailer) + Tokens(path[1..], trailer)
  }

  /** The rendered path: its tokens joined by ",". */
  function Render(path: seq<Step>, trailer: string): (r: string)
    ensures r == [] <==> Tokens(path, trailer) == []
  {
    TokensStartWithDirection(path, trailer);
    Join(Tokens(path, trailer), ",")
  }

  /** A token with its leading comma, spelled out per direction. */
  lemma TokenSpelling(d: Direction, cost: int, trailer: string)
    ensures var c := IntToString(cost);
      "," + Token(d, cost, trailer) ==
        match d
        case Down => ",Down (" + c + ")" + trailer
        case Up => ",Up (" + c + ")" + trailer
        case Left => ",Left (" + c + ")" + trailer
        case Right => ",Right (" + c + ")" + trailer
  {
    var c := IntToString(cost);
    var name := DirectionName(d);
    assert "," + Token(d, cost, trailer) == ("," + name + " (") + c + ")" + trailer;
    match d
    case Down => assert "," + name + " (" == ",Down (";
    case Up => assert "," + name + " (" == ",Up (";
    case Left => assert "," + name + " (" == ",Left (";
    case Right => assert "," + name + " (" == ",Right (";
  }

  /** The text a step contributes once prefixed by its comma. */
  lemma StepTokensText(from: Step, to: Step, trailer: string)
    ensures Prefixed(StepTokens(from, to, trailer), ",") ==
      match StepDirection(from.pos, to.pos)
      case Some(d) => "," + Token(d, to.cost, trailer)
      case None => ""
  {
  }

  /** Putting a step in front of a path puts its token text in front. */
  lemma PrefixedTokensCons(before: Step, path: seq<Step>, trailer: string)
    requires path != []
    ensures Prefixed(Tokens([before] + path, trailer), ",") ==
      Prefixed(StepTokens(before, path[0], trailer), ",") + Prefixed(Tokens(path, trailer), ",")
  {
    var steps := [before] + path;
    assert steps[1..] == path;
    PrefixedAppend(StepTokens(before, path[0], trailer), Tokens(path, trailer), ",");
  }

  /** One step of the walk from the goal back to the root: moving from
      `current` to its predecessor puts the step between them in front of
      the path still to render and of the text rendered so far. */
  lemma WalkBack(pathEnd: State, current: State, later: seq<Step>, trailer: string)
    requires current.cameFrom.Some?
    requires Chain(pathEnd) == Chain(current) + later
    ensures var prev := current.cameFrom.value;
      && Chain(pathEnd) == Chain(prev) + ([StepOf(current)] + later)
      && Prefixed(Tokens([StepOf(prev)] + ([StepOf(current)] + later), trailer), ",") ==
         Prefixed(StepTokens(StepOf(prev), StepOf(current), trailer), ",") +
         Prefixed(Tokens([StepOf(current)] + later, trailer), ",")
  {
    var prev := current.cameFrom.value;
    var rest := [StepOf(current)] + later;
    assert Chain(pathEnd) == Chain(prev) + rest by {
      assert Chain(current) == Chain(prev) + [StepOf(current)];
      assert (Chain(prev) + [StepOf(current)]) + later == Chain(prev) + rest;
    }
    PrefixedTokensCons(StepOf(prev), rest, trailer);
  }

  /** Every step of `path` moves to a neighbouring cell. */
  predicate AllAdjacent(path: seq<Step>)
  {
    forall i :: 0 < i < |path| ==> Adjacent(path[i - 1].pos, path[i].pos)
  }

  // ---------------------------------------------------------------------
  // Properties of the rendering

  /** Every token starts with the capital letter of the direction of the
      movement it stands for. */
  lemma TokensStartWithDirection(path: seq<Step>, trailer: string)
    ensures |Tokens(path, trailer)| == |Moves(path)|
    ensures forall k :: 0 <= k < |Tokens(path, trailer)| ==>
      && Tokens(path, trailer)[k] != []
      && Tokens(path, trailer)[k][0] == DirectionName(Moves(path)[k].dir)[0]
      && Tokens(path, trailer)[k][0] in "DULR"
  {
    TokensSpellMoves(path, trailer);
  }

  /** No token holds a comma when the trailer holds none. */
  lemma {:induction false} TokensHaveNoComma(path: seq<Step>, trailer: string)
    requires ',' !in trailer
    ensures forall k :: 0 <= k < |Tokens(path, trailer)| ==> ',' !in Tokens(path, trailer)[k]
  {
    if |path| >= 2 {
      TokensHaveNoComma(path[1..], trailer);
    }
  }

  /** A path of k steps between neighbouring cells gives exactly k tokens. */
  lemma {:induction false} TokenCount(path: seq<Step>, trailer: string)
    requires AllAdjacent(path)
    ensures |Tokens(path, trailer)| == if path == [] then 0 else |path| - 1
  {
    if |path| >= 2 {
      assert Adjacent(path[0].pos, path[1].pos);
      TokenCount(path[1..], trailer);
    }
  }

  /** In a path of neighbouring cells, token i is the step from cell i to
      cell i + 1, carrying the cost of the cell it arrives at. */
  lemma {:induction false} TokenAt(path: seq<Step>, trailer: string, i: nat)
    requires AllAdjacent(path) && i + 1 < |path|
    ensures |Tokens(path, trailer)| == |path| - 1
    ensures StepDirection(path[i].pos, path[i + 1].pos).Some?
    ensures Tokens(path, trailer)[i] ==
      Token(StepDirection(path[i].pos, path[i + 1].pos).value, path[i + 1].cost, trailer)
  {
    TokenCount(path, trailer);
    assert Adjacent(path[i].pos, path[i + 1].pos);
    var d := StepDirection(path[0].pos, path[1].pos).value;
    assert Tokens(path, trailer) == [Token(d, path[1].cost, trailer)] + Tokens(path[1..], trailer) by {
      assert Adjacent(path[0].pos, path[1].pos);
    }
    if i > 0 {
      AllAdjacentTail(path);
      TokenAt(path[1..], trailer, i - 1);
      assert path[1..][i - 1] == path[i] && path[1..][i] == path[i + 1];
    }
  }

  /** The rendered path never starts with a comma: it is empty or starts
      with a direction. */
  lemma RenderStartsWithDirection(path: seq<Step>, trailer: string)
    ensures var r := Render(path, trailer); r == [] || r[0] in "DULR"
  {
    TokensStartWithDirection(path, trailer);
    if Tokens(path, trailer) != [] {
      JoinHead(Tokens(path, trailer), ",");
    }
  }

  /** With k tokens there are k - 1 commas: the separators and no others. */
  lemma RenderCommaCount(path: seq<Step>, trailer: string)
    requires ',' !in trailer
    ensures var ts := Tokens(path, trailer);
      Count(Render(path, trailer), ',') == if ts == [] then 0 else |ts| - 1
  {
    TokensHaveNoComma(path, trailer);
    JoinCount(Tokens(path, trailer), ',');
  }

  /** The spaced variant has the same tokens, each with one more space. */
  lemma {:induction false} SpacedTokens(path: seq<Step>)
    ensures |Tokens(path, " ")| == |Tokens(path, "")|
    ensures forall k :: 0 <= k < |Tokens(path, "")| ==> Tokens(path, " ")[k] == Tokens(path, "")[k] + " "
  {
    if |path| >= 2 {
      SpacedTokens(path[1..]);
    }
  }

  /** A non-empty rendering of the spaced variant ends with a space. */
  lemma {:induction false} SpacedRenderEndsWithSpace(path: seq<Step>)
    ensures var r := Render(path, " "); r != [] ==> r[|r| - 1] == ' '
  {
    var ts := Tokens(path, " ");
    if ts != [] {
      SpacedTokens(path);
      var u := Tokens(path, "");
      assert ts[|ts| - 1] == u[|ts| - 1] + " ";
      JoinLast(ts, ",");
    }
  }

  // ---------------------------------------------------------------------
  // Reading a rendering back

  /** One step as a reply reports it: its direction and the cost it arrives
      with. */
  datatype Movement = Movement(dir: Direction, cost: int)

  /** The movements of a path's steps, root to goal. */
  function Moves(path: seq<Step>): (ms: seq<Movement>)
    ensures |ms| == |Tokens(path, "")|
  {
    if |path| < 2 then []
    else
      (match StepDirection(path[0].pos, path[1].pos)
       case Some(d) => [Movement(d, path[1].cost)]
       case None => [])
      + Moves(path[1..])
  }

  /** Token k is the spelling of movement k. */
  lemma {:induction false} TokensSpellMoves(path: seq<Step>, trailer: string)
    ensures |Tokens(path, trailer)| == |Moves(path)|
    ensures forall k :: 0 <= k < |Moves(path)| ==>
      Tokens(path, trailer)[k] == Token(Moves(path)[k].dir, Moves(path)[k].cost, trailer)
  {
    if |path| >= 2 {
      TokensSpellMoves(path[1..], trailer);
      var ts, ms := Tokens(path[1..], trailer), Moves(path[1..]);
      match StepDirection(path[0].pos, path[1].pos)
      case Some(d) =>
        var m := Movement(d, path[1].cost);
        assert Tokens(path, trailer) == [Token(m.dir, m.cost, trailer)] + ts;
        assert Moves(path) == [m] + ms;
      case None =>
        assert Tokens(path, trailer) == ts;
        assert Moves(path) == ms;
    }
  }

  function DirectionNamed(name: string): (r: Option<Direction>)
    ensures r.Some? ==> DirectionName(r.value) == name
  {
    if name == "Down" then Some(Down)
    else if name == "Up" then Some(Up)
    else if name == "Left" then Some(Left)
    else if name == "Right" then Some(Right)
    else None
  }

  /** Reads "Dir (cost)" followed by `trailer` back: the direction named up
      to the first space, then " (", the cost up to the first ')', then
      exactly `trailer`; None for any other text. */
  function ParseToken(t: string, trailer: string): Option<Movement>
  {
    var i := FindChar(t, ' ');
    if i + 2 > |t| || t[i + 1] != '(' then None
    else
      var body := t[i + 2..];
      var j := FindChar(body, ')');
      if j == |body| || body[j + 1..] != trailer || !IsIntText(body[..j]) then None
      else
        match DirectionNamed(t[..i])
        case None => None
        case Some(d) => Some(Movement(d, ParseInt(body[..j])))
  }

  /** Only a token reads: whatever ParseToken accepts is the token of the
      movement it returns. */
  lemma ParseTokenSound(t: string, trailer: string)
    ensures ParseToken(t, trailer).Some? ==>
      var m := ParseToken(t, trailer).value;
      t == Token(m.dir, m.cost, trailer)
  {
    if ParseToken(t, trailer).Some? {
      var m := ParseToken(t, trailer).value;
      var i := FindChar(t, ' ');
      var body := t[i + 2..];
      var j := FindChar(body, ')');
      var name, number := t[..i], body[..j];
      assert DirectionName(m.dir) == name && IsIntText(number) && m.cost == ParseInt(number);
      IntToStringOfParseInt(number);
      TokenLayout(t, i, body, j, trailer);
    }
  }

  /** A text with a space and '(' at `i`, and `body` after them holding a
      ')' at `j` followed by `trailer`, is laid out as a token. */
  lemma TokenLayout(t: string, i: nat, body: string, j: nat, trailer: string)
    requires i + 2 <= |t| && t[i] == ' ' && t[i + 1] == '(' && body == t[i + 2..]
    requires j < |body| && body[j] == ')' && body[j + 1..] == trailer
    ensures t == t[..i] + " (" + body[..j] + ")" + trailer
  {
    assert body == body[..j] + [body[j]] + body[j + 1..];
    assert t == t[..i] + [t[i], t[i + 1]] + t[i + 2..];
  }

  /** Reads tokens back, failing if any token does not read. */
  function ParseTokens(ts: seq<string>, trailer: string): (r: Option<seq<Movement>>)
    ensures r.Some? ==> |r.value| == |ts|
  {
    if ts == [] then Some([])
    else
      match (ParseToken(ts[0], trailer), ParseTokens(ts[1..], trailer))
      case (Some(m), Some(ms)) => Some([m] + ms)
      case _ => None
  }

  /** Reads a reply back into the movements it reports: the empty reply is
      no movement, any other is read field by field between its commas. */
  function ParseRender(s: string, trailer: string): Option<seq<Movement>>
  {
    if s == [] then Some([]) else ParseTokens(Fields(s, ','), trailer)
  }

  /** Where ParseToken cuts a text laid out as a token. */
  lemma TokenCuts(name: string, number: string, trailer: string)
    requires ' ' !in name && ')' !in number
    ensures var t := name + " (" + number + ")" + trailer;
      && FindChar(t, ' ') == |name| && |name| + 2 <= |t| && t[|name| + 1] == '(' && t[..|name|] == name
      && t[|name| + 2..] == number + ")" + trailer
  {
    var t := name + " (" + number + ")" + trailer;
    var after := "(" + number + ")" + trailer;
    assert t == name + [' '] + after;
    FindCharAfter(name, ' ', after);
    assert t[..|name|] == name;
    assert t[|name| + 1] == after[0] == '(';
    assert t[|name| + 2..] == after[1..] == number + ")" + trailer;
  }

  /** Where ParseToken cuts the text after a token's " (". */
  lemma BodyCuts(number: string, trailer: string)
    requires ')' !in number
    ensures var body := number + ")" + trailer;
      FindChar(body, ')') == |number| && body[..|number|] == number && body[|number| + 1..] == trailer
  {
    FindCharAfter(number, ')', trailer);
    var body := number + ")" + trailer;
    assert body[..|number|] == number;
    assert body[|number| + 1..] == trailer;
  }

  /** A text laid out as a token reads back as its direction and value. */
  lemma ParseTokenOfParts(name: string, number: string, trailer: string)
    requires DirectionNamed(name).Some? && IsIntText(number)
    requires ' ' !in name && ')' !in number
    ensures ParseToken(name + " (" + number + ")" + trailer, trailer) ==
      Some(Movement(DirectionNamed(name).value, ParseInt(number)))
  {
    TokenCuts(name, number, trailer);
    BodyCuts(number, trailer);
  }

  /** A token reads back as the movement it spells. */
  lemma ParseTokenOfToken(d: Direction, cost: int, trailer: string)
    ensures ParseToken(Token(d, cost, trailer), trailer) == Some(Movement(d, cost))
  {
    var name := DirectionName(d);
    assert DirectionNamed(name) == Some(d) by {
      match d
      case Down =>
      case Up =>
      case Left =>
      case Right =>
    }
    assert ' ' !in name by {
      match d
      case Down =>
      case Up =>
      case Left =>
      case Right =>
    }
    ParseIntToString(cost);
    ParseTokenOfParts(name, IntToString(cost), trailer);
  }

  /** The tokens spelling `ms`, in order. */
  function Spelled(ms: seq<Movement>, trailer: string): (ts: seq<string>)
    ensures |ts| == |ms|
  {
    if ms == [] then [] else [Token(ms[0].dir, ms[0].cost, trailer)] + Spelled(ms[1..], trailer)
  }

  lemma {:induction false} SpelledAt(ms: seq<Movement>, trailer: string)
    ensures forall k :: 0 <= k < |ms| ==> Spelled(ms, trailer)[k] == Token(ms[k].dir, ms[k].cost, trailer)
  {
    if ms != [] {
      SpelledAt(ms[1..], trailer);
    }
  }

  lemma ParseTokensOfSpelled(ms: seq<Movement>, trailer: string)
    ensures ParseTokens(Spelled(ms, trailer), trailer) == Some(ms)
  {
    var ts := Spelled(ms, trailer);
    forall k | 0 <= k < |ms| ensures ParseToken(ts[k], trailer) == Some(ms[k]) {
      SpelledAt(ms, trailer);
      ParseTokenOfToken(ms[k].dir, ms[k].cost, trailer);
    }
    ParseTokensEach(ts, ms, trailer);
  }

  /** Tokens that each read back as a movement read back as the list of
      those movements. */
  lemma {:induction false} ParseTokensEach(ts: seq<string>, ms: seq<Movement>, trailer: string)
    requires |ts| == |ms|
    requires forall k :: 0 <= k < |ts| ==> ParseToken(ts[k], trailer) == Some(ms[k])
    ensures ParseTokens(ts, trailer) == Some(ms)
  {
    if ts != [] {
      ParseTokensEach(ts[1..], ms[1..], trailer);
      assert ParseToken(ts[0], trailer) == Some(ms[0]);
      assert [ms[0]] + ms[1..] == ms;
    }
  }

  /** Reading a reply back gives the movements of the path it renders. */
  lemma ParseRenderOfRender(path: seq<Step>, trailer: string)
    requires ',' !in trailer
    ensures ParseRender(Render(path, trailer), trailer) == Some(Moves(path))
  {
    var ms := Moves(path);
    var ts := Tokens(path, trailer);
    TokensSpellMoves(path, trailer);
    assert ts == Spelled(ms, trailer) by {
      SpelledAt(ms, trailer);
    }
    ParseTokensOfSpelled(ms, trailer);
    if ts != [] {
      TokensHaveNoComma(path, trailer);
      TokensStartWithDirection(path, trailer);
      JoinHead(ts, ",");
      FieldsOfJoin(ts, ',');
    }
  }

  /** The cells visited when making the movements `ms` from `p`, `p`
      included. */
  function Walk(p: Position, ms: seq<Movement>): (cells: seq<Position>)
    ensures |cells| == |ms| + 1 && cells[0] == p
    decreases |ms|
  {
    if ms == [] then [p] else [p] + Walk(Move(p, ms[0].dir), ms[1..])
  }

  function Cells(path: seq<Step>): seq<Position>
  {
    seq(|path|, i requires 0 <= i < |path| => path[i].pos)
  }

  /** Making the movements of a path of neighbouring cells from its root
      visits exactly its cells, and each movement carries the cost of the
      cell it arrives at. */
  lemma {:induction false} WalkMoves(path: seq<Step>)
    requires path != [] && AllAdjacent(path)
    ensures |Moves(path)| == |path| - 1
    ensures Walk(path[0].pos, Moves(path)) == Cells(path)
    ensures forall k :: 0 <= k < |Moves(path)| ==> Moves(path)[k].cost == path[k + 1].cost
  {
    if |path| >= 2 {
      AllAdjacentTail(path);
      WalkMoves(path[1..]);
      var m := MovesCons(path);
      var rest := Moves(path[1..]);
      assert Walk(path[0].pos, [m] + rest) == [path[0].pos] + Walk(path[1].pos, rest) by {
        assert ([m] + rest)[0] == m && ([m] + rest)[1..] == rest;
      }
      assert Cells(path) == [path[0].pos] + Cells(path[1..]);
      forall k | 0 <= k < |[m] + rest| ensures ([m] + rest)[k].cost == path[k + 1].cost {
        if k > 0 {
          assert ([m] + rest)[k] == rest[k - 1] && path[1..][k] == path[k + 1];
        }
      }
    }
  }

  lemma AllAdjacentTail(path: seq<Step>)
    requires path != [] && AllAdjacent(path)
    ensures AllAdjacent(path[1..])
  {
    forall i | 0 < i < |path| - 1 ensures Adjacent(path[1..][i - 1].pos, path[1..][i].pos) {
      assert Adjacent(path[i].pos, path[i + 1].pos);
    }
  }

  /** The first movement of a path whose first step is between neighbours. */
  lemma MovesCons(path: seq<Step>) returns (m: Movement)
    requires |path| >= 2 && Adjacent(path[0].pos, path[1].pos)
    ensures Move(path[0].pos, m.dir) == path[1].pos && m.cost == path[1].cost
    ensures Moves(path) == [m] + Moves(path[1..])
  {
    m := Movement(StepDirection(path[0].pos, path[1].pos).value, path[1].cost);
  }

  /** The reply for a path of neighbouring cells reads back into movements
      that, made from the root, visit exactly the path's cells with the
      path's costs. */
  lemma ReplayRender(path: seq<Step>, trailer: string)
    requires path != [] && AllAdjacent(path)
    requires ',' !in trailer
    ensures var parsed := ParseRender(Render(path, trailer), trailer);
      && parsed.Some?
      && Walk(path[0].pos, parsed.value) == Cells(path)
      && forall k :: 0 <= k < |parsed.value| ==> parsed.value[k].cost == path[k + 1].cost
  {
    ParseRenderOfRender(path, trailer);
    WalkMoves(path);
  }

  // ---------------------------------------------------------------------
  // A worked example

  /** The path down the left column and along the bottom row of a 3 by 3
      maze whose cells all cost 1, as the solver hands back its goal state. */
  function OpenMazeGoal(): State
  {
    var s0 := State(Position(0, 0), 0, None);
    var s1 := State(Position(1, 0), 1, Some(s0));
    var s2 := State(Position(2, 0), 2, Some(s1));
    var s3 := State(Position(2, 1), 3, Some(s2));
    State(Position(2, 2), 4, Some(s3))
  }

  /** The path the example's goal state walks back to, root first. */
  lemma OpenMazePath()
    ensures Chain(OpenMazeGoal()) ==
      [Step(Position(0, 0), 0), Step(Position(1, 0), 1), Step(Position(2, 0), 2),
       Step(Position(2, 1), 3), Step(Position(2, 2), 4)]
  {
  }

  lemma OpenMazeTokens(trailer: string)
    ensures Tokens(Chain(OpenMazeGoal()), trailer) ==
      [Token(Down, 1, trailer), Token(Down, 2, trailer), Token(Right, 3, trailer), Token(Right, 4, trailer)]
  {
    OpenMazePath();
    var path := Chain(OpenMazeGoal());
    var t1, t2, t3, t4 := Token(Down, 1, trailer), Token(Down, 2, trailer), Token(Right, 3, trailer), Token(Right, 4, trailer);
    assert Tokens(path[3..], trailer) == [t4] by {
      assert StepTokens(path[3], path[4], trailer) == [t4];
      assert path[3..][1..] == path[4..];
    }
    assert Tokens(path[2..], trailer) == [t3, t4] by {
      assert StepTokens(path[2], path[3], trailer) == [t3];
      assert path[2..][1..] == path[3..];
    }
    assert Tokens(path[1..], trailer) == [t2, t3, t4] by {
      assert StepTokens(path[1], path[2], trailer) == [t2];
      assert path[1..][1..] == path[2..];
    }
    assert StepTokens(path[0], path[1], trailer) == [t1];
  }

  /** Four tokens joined by commas. */
  lemma JoinFour(a: string, b: string, c: string, d: string)
    ensures Join([a, b, c, d], ",") == a + "," + b + "," + c + "," + d
  {
    var ts := [a, b, c, d];
    assert ts[1..] == [b, c, d] && ts[1..][1..] == [c, d] && ts[1..][1..][1..] == [d];
    assert Join([c, d], ",") == c + "," + d;
    assert Join([b, c, d], ",") == b + "," + (c + "," + d);
  }

  /** A token spelled from the name of its direction and its numeral. */
  lemma TokenText(d: Direction, cost: int, trailer: string, name: string, numeral: string)
    requires DirectionName(d) == name && IntToString(cost) == numeral
    ensures Token(d, cost, trailer) == name + " (" + numeral + ")" + trailer
  {
  }

  lemma SmallNumerals()
    ensures IntToString(1) == "1" && IntToString(2) == "2" && IntToString(3) == "3" && IntToString(4) == "4"
  {
  }

  lemma OpenMazeTokenTexts(trailer: string)
    ensures Tokens(Chain(OpenMazeGoal()), trailer) ==
      ["Down (1)" + trailer, "Down (2)" + trailer, "Right (3)" + trailer, "Right (4)" + trailer]
  {
    OpenMazeTokens(trailer);
    SmallNumerals();
    assert Token(Down, 1, trailer) == "Down (1)" + trailer by {
      TokenText(Down, 1, trailer, "Down", "1");
      assert "Down" + " (" + "1" + ")" == "Down (1)";
    }
    assert Token(Down, 2, trailer) == "Down (2)" + trailer by {
      TokenText(Down, 2, trailer, "Down", "2");
      assert "Down" + " (" + "2" + ")" == "Down (2)";
    }
    assert Token(Right, 3, trailer) == "Right (3)" + trailer by {
      TokenText(Right, 3, trailer, "Right", "3");
      assert "Right" + " (" + "3" + ")" == "Right (3)";
    }
    assert Token(Right, 4, trailer) == "Right (4)" + trailer by {
      TokenText(Right, 4, trailer, "Right", "4");
      assert "Right" + " (" + "4" + ")" == "Right (4)";
    }
  }

  lemma OpenMazeReplySpelling()
    ensures "Down (1)" + "," + "Down (2)" + "," + "Right (3)" + "," + "Right (4)" ==
      "Down (1),Down (2),Right (3),Right (4)"
  {
  }

  lemma OpenMazeSpacedReplySpelling()
    ensures "Down (1) " + "," + "Down (2) " + "," + "Right (3) " + "," + "Right (4) " ==
      "Down (1) ,Down (2) ,Right (3) ,Right (4) "
  {
  }

  /** That path renders as two Downs and two Rights with their running
      costs. */
  lemma RenderOpenMaze()
    ensures Render(Chain(OpenMazeGoal()), "") == "Down (1),Down (2),Right (3),Right (4)"
  {
    var t1, t2, t3, t4 := "Down (1)", "Down (2)", "Right (3)", "Right (4)";
    assert Tokens(Chain(OpenMazeGoal()), "") == [t1, t2, t3, t4] by {
      OpenMazeTokenTexts("");
      assert t1 + "" == t1 && t2 + "" == t2 && t3 + "" == t3 && t4 + "" == t4;
    }
    JoinFour(t1, t2, t3, t4);
    OpenMazeReplySpelling();
  }

  lemma SpacedTokenTexts()
    ensures "Down (1)" + " " == "Down (1) " && "Down (2)" + " " == "Down (2) "
    ensures "Right (3)" + " " == "Right (3) " && "Right (4)" + " " == "Right (4) "
  {
  }

  /** In the spaced spelling every token of it ends with a space. */
  lemma RenderOpenMazeSpaced()
    ensures Render(Chain(OpenMazeGoal()), " ") == "Down (1) ,Down (2) ,Right (3) ,Right (4) "
  {
    var t1, t2, t3, t4 := "Down (1) ", "Down (2) ", "Right (3) ", "Right (4) ";
    assert Tokens(Chain(OpenMazeGoal()), " ") == [t1, t2, t3, t4] by {
      OpenMazeTokenTexts(" ");
      SpacedTokenTexts();
    }
    JoinFour(t1, t2, t3, t4);
    OpenMazeSpacedReplySpelling();
  }
}
