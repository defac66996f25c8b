/** The stand-alone path renderer of the server's entry point: the same walk
    as the client handler's, with a space after every token. */
module ServerMain {
  import opened Text
  import opened Rendering

  /** The text GetPath puts in front for the step from `previous` to
      `current`: a comma and the spaced token of the first direction test
      that matches, or nothing. */
  method StepText(previous: State, current: State) returns (token: string)
    ensures token == Prefixed(StepTokens(StepOf(previous), StepOf(current), " "), ",")
    ensures token == "" || token[0] == ','
  {
    StepTokensText(StepOf(previous), StepOf(current), " ");
    var currentPos, previousPos := current.pos, previous.pos;
    var cost := IntToString(current.cost);
    token := "";
    if currentPos.row == previousPos.row + 1 {
      token := ",Down (" + cost + ") ";
      TokenSpelling(Down, current.cost, " ");
    } else if currentPos.row == previousPos.row - 1 {
      token := ",Up (" + cost + ") ";
      TokenSpelling(Up, current.cost, " ");
    } else if currentPos.col == previousPos.col - 1 {
      token := ",Left (" + cost + ") ";
      TokenSpelling(Left, current.cost, " ");
    } else if currentPos.col == previousPos.col + 1 {
      token := ",Right (" + cost + ") ";
      TokenSpelling(Right, current.cost, " ");
    }
  }

  /** Walks from the goal state back to the root, putting each step's
      "Dir (cost) " token in front of what it has so far, then drops the
      leading comma. */
  method GetPath(go: State) returns (result: string)
    ensures result == Render(Chain(go), " ")
    ensures go.cameFrom.None? ==> result == ""
  {
    var current := go;
    var previous := current.cameFrom;
    result := "";
    ghost var later: seq<Step> := [];
    while previous.Some?
      invariant previous == current.cameFrom
      invariant Chain(go) == Chain(current) + later
      invariant result == Prefixed(Tokens([StepOf(current)] + later, " "), ",")
      decreases current
    {
      WalkBack(go, current, later, " ");
      var token := StepText(previous.value, current);
      result := token + result;
      later := [StepOf(current)] + later;
      current := previous.value;
      previous := current.cameFrom;
    }
    ghost var tokens := Tokens(Chain(go), " ");
    if tokens != [] {
      PrefixedIsSepThenJoin(tokens, ",");
    }
    if |result| > 0 {
      result := result[1..];
    }
  }
}
