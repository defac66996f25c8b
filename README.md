# Maze server request handling, modelled in Dafny

The maze server reads one request per connection. A request is maze rows, then a
start line, then a goal line, then the sentinel `end`. The server looks the
problem up in a solution cache. On a miss it runs a best-first search and renders
the path it finds as direction tokens such as `Down (1),Right (2)`. It saves that
rendering in the cache and sends it back followed by a newline.

This project models that request handling (`MyClientHandler.cpp`) and the
stand-alone path renderer of the entry point (`main.cpp`). The methods follow the
source's loops and state updates. Each is proved against a specification
function, and lemmas prove what those functions promise.

Modules:

- `Wrappers`: `Option`.
- `Text`: the `std::string` operations the handler relies on:
  - `find` / `npos`, `substr` and erase–remove of `'\r'`;
  - `std::getline` splitting (`Lines`);
  - `std::to_string` (`NatToString`, `IntToString`) and its inverse;
  - joining and splitting at a separator.
- `Rendering`: search states and their predecessor chains (`State`, `Chain`).
  - The direction test (`StepDirection`), the tokens and the rendered reply (`Render`).
  - A reader that turns a reply back into movements (`ParseRender`).
  - The properties of the rendering.
- `Protocol`: what `Read` makes of the client's reads (`ReadText`), how a request
  text splits into maze, start and goal (`ParseRequest`), and the cache key
  (`ProblemKey`).
- `ClientHandler`: the `CacheManager` (a map the handler updates in place) and
  `MyClientHandler` with `Read`, `GetPath` and `HandleClient`. `HandleClient` is
  split into the loops it runs: `SplitLines` and `JoinMaze`.
- `ServerMain`: `main.cpp`'s `GetPath`, which puts a space after every token.

How the collaborators are modelled:

- The solver is a function field `search` from a request to `Solved(goalState)` or
  `SearchException`.
- `std::hash<std::string>` is a function field `hashOfString` with no further
  assumptions.
- The mutex is a `locked` flag. A ghost counter `searches` counts the times the
  search runs.
- A connection's reads are a sequence of `Received(bytes)` / `ReadError` values.

Consequences of the code worth knowing:

- The cache key is built from three `std::hash` values, not from the problem
  itself. Two problems whose mazes, starts and goals hash alike share a cache
  entry, and the second gets the first one's solution.
  `Protocol.ProblemKeyMatches` states exactly when keys are equal.
- A request needs at least three lines (maze rows, start, goal). With fewer,
  `lines.back()` runs on an empty vector or `maze.pop_back()` on an empty string.
  The model answers `BadRequest` for fewer than three lines.
- One handler-wide mutex is held around the cache lookup, the solve and the save.
  Concurrent connections therefore solve one at a time, whatever their problems.
  The model treats that region as one sequential step.
- The sentinel `end` is searched for in each read's text on its own. A sentinel
  split over two reads does not stop the loop, even though the accumulated text
  holds it (`Protocol.SentinelSplitOverReads`).

## Model

| member | source | states |
|---|---|---|
| Protocol.CString | MyClientHandler.cpp:161 | the buffer taken as a C string is the bytes read up to their first NUL: a prefix holding no NUL, followed in the bytes by a NUL when shorter, and all of them when they hold none |
| Protocol.StopsReading | MyClientHandler.cpp:157-168 | a read stops the loop when it fails or its C string holds "end"; a successful read that stops it holds "end" in its bytes |
| Protocol.Accumulated | MyClientHandler.cpp:161-162 | `all_data`, the reads' C strings in order, never holds a NUL |
| Protocol.FirstStop | MyClientHandler.cpp:151-170 | the loop stops after the first read that fails or whose own text holds "end": no earlier read does either |
| Protocol.RequestText | MyClientHandler.cpp:157-173 | the request text never holds a '\r' |
| Protocol.ReadText | MyClientHandler.cpp:142-175 | the text `Read` returns never holds a '\r' |
| Protocol.AccumulatedStep | MyClientHandler.cpp:161-162 | one more successful read appends its C string to `all_data` |
| ClientHandler.MyClientHandler.Read | MyClientHandler.cpp:142-175 | the read loop returns exactly `ReadText` of the reads: "" on a failed read, else the accumulated text cut before its first "end" with every '\r' removed |
| Protocol.ReadTextIgnoresLaterReads | MyClientHandler.cpp:151-170 | what arrives after the read that stops the loop never changes the request text |
| Protocol.SentinelFoundAtSeam | MyClientHandler.cpp:165-171 | in `t + "end"` where `t` holds no "end", the first "end" starts at `|t|` |
| Protocol.CStringOfSentinelled | MyClientHandler.cpp:161 | text and sentinel holding no NUL are taken whole from the buffer |
| Protocol.BeforeSentinel | MyClientHandler.cpp:171 | cutting `t + "end"` before its first "end" gives back `t` |
| Protocol.ReadOfOneChunk | MyClientHandler.cpp:142-175 | a client that sends text (no NUL, '\r' or "end") and the sentinel in one read gets exactly that text back |
| Protocol.SentinelSplitOverReads | MyClientHandler.cpp:161-169 | an "end" split over two reads stops no read, although the accumulated text holds "end" |
| Text.FindChar | MyClientHandler.cpp:161 | the index of the first occurrence of a character, or the length when there is none |
| Text.Find | MyClientHandler.cpp:165-171 | `find` gives the first index where the pattern occurs, or npos when it occurs nowhere |
| Text.BeforeFirst | MyClientHandler.cpp:171 | `substr(0, find("end"))` is a prefix of the text with no "end" starting anywhere inside it; when the text holds "end" it ends exactly where the first one starts, otherwise it is the whole text |
| Text.BeforeFirstHasNoMatch | MyClientHandler.cpp:171 | what is kept before the first "end" holds no "end" |
| Text.Without | MyClientHandler.cpp:172 | erase–remove of '\r' leaves no '\r' and is shorter by exactly the number of '\r' in the text; the other characters are kept, in order (see `Text.WithoutAppend`), and nothing changes when there is none |
| Text.WithoutAppend | MyClientHandler.cpp:172 | removing a character distributes over concatenation |
| Text.Lines | MyClientHandler.cpp:27-29 | the lines `getline` extracts hold no '\n', and there are none exactly when the text is empty |
| Text.LinesCons | MyClientHandler.cpp:27-29 | a line followed by '\n' is extracted first, then the rest |
| Text.LinesAdvance | MyClientHandler.cpp:27-29 | one character of `getline`: '\n' ends the current line, anything else extends it |
| Text.LinesOfTerminated | MyClientHandler.cpp:27-29 | splitting lines each ended by '\n' gives those lines back |
| Text.JoinOfLines | MyClientHandler.cpp:27-29 | the extracted lines joined by '\n' are the text less a final '\n': a trailing newline adds no empty line |
| ClientHandler.MyClientHandler.SplitLines | MyClientHandler.cpp:22-29 | the character loop collects exactly `Lines(data)` |
| Text.TerminatedSnoc | MyClientHandler.cpp:38 | appending a row and its '\n' extends the terminated text by exactly that |
| Text.TerminatedIsJoinThenSep | MyClientHandler.cpp:36-40 | rows each ended by '\n' are the rows joined by '\n' plus one final '\n', so `pop_back` leaves the join |
| ClientHandler.MyClientHandler.JoinMaze | MyClientHandler.cpp:36-40 | appending each row and '\n', then dropping the last character, gives the rows joined by '\n' with no trailing newline |
| Text.JoinAppend | MyClientHandler.cpp:36-40 | joining two non-empty lists is joining each and putting a separator between |
| Protocol.ParseRequest | MyClientHandler.cpp:27-40 | a request parses exactly when its text has at least three lines; start and goal are then single lines |
| Protocol.ParseRequestOfLines | MyClientHandler.cpp:27-40 | rows, start and goal sent each ended by '\n' parse back into those rows joined by '\n', that start and that goal |
| Protocol.ParsedFieldsJoinLines | MyClientHandler.cpp:31-40 | maze, start and goal joined by '\n' are all the lines joined by '\n' |
| Protocol.ParseRequestKeepsText | MyClientHandler.cpp:22-40 | parsing loses nothing: maze, start and goal joined by '\n' are the request text less a final '\n' |
| Text.NatToString | MyClientHandler.cpp:48-52 | `to_string` of a `size_t` is a non-empty numeral with no leading zero |
| Text.ParseNatToString | MyClientHandler.cpp:48-52 | the numeral reads back as its value |
| Text.NatToStringInjective | MyClientHandler.cpp:48-52 | two values have the same numeral exactly when they are equal |
| Text.NatToStringOfParseNat | MyClientHandler.cpp:48-52 | every numeral without a leading zero is the numeral of its value |
| Protocol.ProblemKey | MyClientHandler.cpp:43-52 | splitting the key at its commas gives back exactly the three decimal hashes of maze, start and goal |
| Protocol.SplitAtFirstComma | MyClientHandler.cpp:48-52 | two texts that each start with a comma-free field and a comma are equal exactly when field and rest both are |
| Protocol.ProblemKeyMatches | MyClientHandler.cpp:43-52 | two problems get the same key exactly when their mazes, starts and goals hash alike |
| ClientHandler.CacheManager.IsSolutionExists | MyClientHandler.cpp:57 | a problem exists in the cache exactly when it is one of its keys; the exists/save law is stated on `SaveSolution`: a problem exists after it is saved, and every other problem exists afterwards exactly when it did before |
| ClientHandler.CacheManager.GetSolution | MyClientHandler.cpp:58 | what is fetched for a cached problem is one of the stored solutions; the get/save law is stated on `SaveSolution`: get after save returns the saved solution, and other problems keep theirs |
| ClientHandler.CacheManager.SaveSolution | MyClientHandler.cpp:81 | the cache afterwards maps the key to the solution and is otherwise unchanged: after saving, the key exists and get returns the saved solution, while every other key exists exactly when it did before and keeps its solution |
| ClientHandler.MyClientHandler.HandleClient | MyClientHandler.cpp:8-103 | empty text: no reply, cache and search count unchanged. Fewer than three lines: no reply, nothing changed. Key cached: reply is the stored solution plus '\n', cache unchanged, no search. Otherwise one search. A throw leaves the cache unchanged with no reply; a solve replies with the rendered path plus '\n' and adds key ↦ path. The mutex is released on every path |
| ClientHandler.MyClientHandler.HandleSameRequestTwice | MyClientHandler.cpp:54-93 | when the first of two calls with the same request replies, the request text is non-empty and parses, its key is cached afterwards and the reply is that cached solution plus '\n'; the second call gives the same reply, and both calls together run exactly as many searches as the first alone: one on a cache miss, none on a hit |
| Rendering.Chain | MyClientHandler.cpp:112-131 | the path behind a state, root first: it ends at the state and has one element exactly when there is no predecessor |
| Rendering.StepDirection | MyClientHandler.cpp:120-128 | between neighbouring cells the first matching test (Down, Up, Left, Right) gives the direction that moves one cell to the other |
| Rendering.TokenSpelling | MyClientHandler.cpp:121-127 | a token with its comma is the literal of its direction test: ",Down (c)", ",Up (c)", ",Left (c)" or ",Right (c)" plus the trailer |
| Rendering.DirectionName | MyClientHandler.cpp:121-127 | a direction's name is at least two characters, starts with D, U, L or R and holds no comma |
| Rendering.Token | MyClientHandler.cpp:121-127 | a token starts with its direction's name and holds no comma unless its trailer does |
| Rendering.StepTokens | MyClientHandler.cpp:120-128 | a step contributes at most one token, and exactly one between neighbouring cells |
| Rendering.Tokens | MyClientHandler.cpp:115-131 | a path of n cells gives at most n - 1 tokens |
| Rendering.Render | MyClientHandler.cpp:115-132 | the reply is empty exactly when the path gives no token |
| Rendering.StepTokensText | MyClientHandler.cpp:120-128 | a step contributes a comma and its token when a test matches, nothing otherwise |
| Rendering.PrefixedTokensCons | MyClientHandler.cpp:121-127 | inserting at position 0 puts a step's text in front of the rest |
| Rendering.WalkBack | MyClientHandler.cpp:115-131 | one step back along the chain moves the step into the rendered part and keeps text and chain in step |
| ClientHandler.MyClientHandler.StepText | MyClientHandler.cpp:116-128 | the text inserted for one step is a comma and that step's token, or nothing |
| ClientHandler.MyClientHandler.GetPath | MyClientHandler.cpp:110-135 | the loop returns the chain's tokens root to goal joined by ","; with no predecessor it returns "" |
| Text.PrefixedIsSepThenJoin | MyClientHandler.cpp:132 | texts each preceded by a comma are a comma plus their join, so erasing the first character leaves the join |
| Text.IntToString | MyClientHandler.cpp:121 | `to_string` of an int starts with '-' exactly when the value is negative, and is otherwise digits; it holds no ',' and no ')' |
| Text.ParseIntToString | MyClientHandler.cpp:121 | the cost text has the `to_string` form and reads back as the cost |
| Text.IntToStringOfParseInt | MyClientHandler.cpp:121 | each text of the `to_string` form is written for its own value only |
| Rendering.TokensStartWithDirection | MyClientHandler.cpp:121-127 | there is one token per movement, and token k starts with the capital letter of the direction of movement k (D, U, L or R) |
| Rendering.TokensHaveNoComma | MyClientHandler.cpp:121-127 | no token holds a comma |
| Rendering.RenderStartsWithDirection | MyClientHandler.cpp:132 | the reply never starts with a comma: it is empty or starts with a direction |
| Rendering.TokenCount | main.cpp:23-38 | a path of k steps between neighbouring cells gives exactly k tokens |
| Rendering.TokenAt | MyClientHandler.cpp:115-131 | token i is the step from cell i to cell i+1, carrying the arriving cell's cost |
| Text.JoinCount | main.cpp:23-38 | k comma-free parts joined by commas hold k-1 commas |
| Rendering.RenderCommaCount | main.cpp:23-38 | a reply with k tokens holds exactly k-1 commas |
| Text.JoinHead | MyClientHandler.cpp:132 | a join starts with the first character of its first part |
| Text.JoinLast | main.cpp:38 | a join ends with the last character of its last part |
| ServerMain.StepText | main.cpp:24-34 | the text inserted for one step is a comma and that step's spaced token, or nothing |
| ServerMain.GetPath | main.cpp:18-42 | the loop returns the chain's spaced tokens root to goal joined by ","; with no predecessor it returns "" |
| Rendering.SpacedTokens | main.cpp:27-33 | the spaced renderer has the same tokens as the handler's, each with one space appended |
| Rendering.SpacedRenderEndsWithSpace | main.cpp:27-38 | a non-empty spaced reply ends with a space |
| Rendering.Moves | MyClientHandler.cpp:115-131 | the movements a path reports, one per token |
| Rendering.TokensSpellMoves | MyClientHandler.cpp:115-131 | token k spells movement k |
| Rendering.ParseTokenSound | MyClientHandler.cpp:121-127 | whatever the token reader accepts is exactly the token of the movement it returns |
| Rendering.ParseTokenOfParts | MyClientHandler.cpp:121-127 | a text laid out as a token reads back as its direction and cost |
| Rendering.ParseTokenOfToken | MyClientHandler.cpp:121-127 | every token reads back as the direction and cost it was written from |
| Rendering.ParseTokensOfSpelled | MyClientHandler.cpp:115-131 | a list of tokens reads back as its movements |
| Text.FieldsOfJoin | MyClientHandler.cpp:121-132 | splitting at the separator undoes joining separator-free parts |
| Rendering.ParseRenderOfRender | MyClientHandler.cpp:110-135 | reading a reply back gives exactly the movements of the path it renders |
| Rendering.Walk | MyClientHandler.cpp:115-131 | replaying movements from a cell visits one cell more than there are movements, starting there |
| Rendering.MovesCons | MyClientHandler.cpp:120-128 | the first movement of a path whose first step joins neighbours moves from its first cell to its second with the second's cost |
| Rendering.WalkMoves | MyClientHandler.cpp:115-131 | on a path of neighbouring cells, replaying its movements from the root visits exactly its cells, with its costs |
| Rendering.ReplayRender | MyClientHandler.cpp:110-135 | the reply for a path of neighbouring cells reads back into movements that retrace the path cell by cell with its costs |
| Rendering.OpenMazeTokens | MyClientHandler.cpp:115-131 | the example path down and right through a 3 by 3 maze of unit-cost cells gives Down, Down, Right, Right with costs 1 to 4 |
| Rendering.RenderOpenMaze | MyClientHandler.cpp:110-135 | that path renders as "Down (1),Down (2),Right (3),Right (4)" |
| Rendering.RenderOpenMazeSpaced | main.cpp:18-42 | and, in the spaced renderer, as "Down (1) ,Down (2) ,Right (3) ,Right (4) " |

## Left out

- Socket I/O: `read`, `send`, `close` and `bzero` are not modelled. A connection's reads are given as a sequence of results, and the reply is returned as a value. The send-error path (MyClientHandler.cpp:94-100) only closes the socket, and closing is not modelled.
- The 1023-byte limit of each read is not modelled. A read's bytes are any text, taken up to the first NUL as the source does.
- ClientHandler.MyClientHandler.Read: requires that some read stops the loop. When none does, for example at end of stream with no "end" sent, the source keeps reading forever.
- The mutex and the parallel server are reduced to a `locked` flag. The handler holds it around the lookup, solve and save as one sequential step. Interleavings of concurrent connections are not modelled.
- `std::hash<std::string>` (MyClientHandler.cpp:182-184) is an unknown function to `nat`. The width of `size_t` is not modelled.
- The search algorithms, `SearchableMatrix`, `SolverToSearcherAdapter` and `FileCacheManager` are not part of this model. The solver is a function from the request to a goal state or an exception. The cache is a `map` with exists/get/save; its persistence is not modelled.
- Costs are `int`. The cast of the floating-point cumulative cost to `int` is not modelled.
- Raw pointers and `new`/`delete` are not modelled. A chain is a value, so it is finite and acyclic, and the null `pathEnd` that the source would dereference cannot occur.
- `main()`'s argument and port parsing, server start-up and clean-up (main.cpp:44-79) are not modelled.
- ClientHandler.MyClientHandler.HandleClient: fewer than three request lines is undefined behaviour in the source, because `back()` runs on an empty vector or `pop_back()` on an empty maze string. The model answers `BadRequest` and changes nothing.
