/** The pieces of std::string, std::getline and std::to_string that the
    request handler relies on, as functions on `string` (a `seq<char>`). */
module Text {
  import opened Wrappers

  // ---------------------------------------------------------------------
  // Searching

  /** Index of the first `c` in `s`, or `|s|` when `s` holds no `c`. */
  function FindChar(s: string, c: char): (r: nat)
    ensures r <= |s|
    ensures r < |s| ==> s[r] == c
    ensures forall j :: 0 <= j < r ==> s[j] != c
  {
    if s == [] then 0
    else if s[0] == c then 0
    else 1 + FindChar(s[1..], c)
  }

  /** `pat` occurs in `s` starting at index `i`. */
  predicate OccursAt(s: string, pat: string, i: nat)
  {
    i + |pat| <= |s| && s[i..i + |pat|] == pat
  }

  /** The first occurrence of `pat` in `s` at index `i` or later. */
  function FindFrom(s: string, pat: string, i: nat): (r: Option<nat>)
    requires i <= |s|
    ensures r.Some? ==> i <= r.value <= |s| && OccursAt(s, pat, r.value)
    ensures forall j :: i <= j < (if r.Some? then r.value else |s| + 1) ==> !OccursAt(s, pat, j)
    decreases |s| - i
  {
    if OccursAt(s, pat, i) then Some(i)
    else if i == |s| then None
    else FindFrom(s, pat, i + 1)
  }

  /** std::string::find: the index of the first occurrence of `pat` in `s`,
      `None` standing for std::string::npos. */
  function Find(s: string, pat: string): (r: Option<nat>)
    ensures r.Some? ==> OccursAt(s, pat, r.value)
    ensures forall j :: 0 <= j < (if r.Some? then r.value else |s| + 1) ==> !OccursAt(s, pat, j)
  {
    FindFrom(s, pat, 0)
  }

  predicate Contains(s: string, pat: string)
  {
    Find(s, pat).Some?
  }

  /** `s.substr(0, s.find(pat))`: all of `s` when `pat` does not occur. */
  function BeforeFirst(s: string, pat: string): (r: string)
    ensures r <= s
    ensures Contains(s, pat) ==> OccursAt(s, pat, |r|)
    ensures !Contains(s, pat) ==> r == s
    ensures forall j :: 0 <= j < |r| ==> !OccursAt(s, pat, j)
  {
    match Find(s, pat)
    case Some(i) => s[..i]
    case None => s
  }

  /** What is kept before the first `pat` holds no `pat` of its own. */
  lemma BeforeFirstHasNoMatch(s: string, pat: string)
    requires |pat| > 0
    ensures !Contains(BeforeFirst(s, pat), pat)
  {
    var r := BeforeFirst(s, pat);
    if Contains(r, pat) {
      var j := Find(r, pat).value;
      assert r[j..j + |pat|] == s[j..j + |pat|];
      assert OccursAt(s, pat, j);
      assert false;
    }
  }

  /** A pattern found in a prefix is found in the whole text. */
  lemma ContainsInLonger(p: string, s: string, pat: string)
    requires p <= s && Contains(p, pat)
    ensures Contains(s, pat)
  {
    var i := Find(p, pat).value;
    assert s[i..i + |pat|] == p[i..i + |pat|];
    assert OccursAt(s, pat, i);
  }

  /** The erase-remove idiom: `s` with every `c` taken out, order kept. */
  function Without(s: string, c: char): (r: string)
    ensures c !in r
    ensures |r| == |s| - Count(s, c)
    ensures c !in s ==> r == s
  {
    if s == [] then []
    else (if s[0] == c then [] else [s[0]]) + Without(s[1..], c)
  }

  lemma {:induction false} WithoutAppend(a: string, b: string, c: char)
    ensures Without(a + b, c) == Without(a, c) + Without(b, c)
  {
    if a != [] {
      var head := if a[0] == c then [] else [a[0]];
      assert Without(a + b, c) == head + Without(a[1..] + b, c) by {
        assert (a + b)[0] == a[0] && (a + b)[1..] == a[1..] + b;
      }
      WithoutAppend(a[1..], b, c);
      assert Without(a, c) == head + Without(a[1..], c);
    } else {
      assert a + b == b;
    }
  }

  /** The number of `c` in `s`. */
  function Count(s: string, c: char): (n: nat)
    ensures n == 0 <==> c !in s
    ensures n <= |s|
  {
    if s == [] then 0 else (if s[0] == c then 1 else 0) + Count(s[1..], c)
  }

  lemma {:induction false} CountAppend(a: string, b: string, c: char)
    ensures Count(a + b, c) == Count(a, c) + Count(b, c)
  {
    if a != [] {
      assert (a + b)[1..] == a[1..] + b;
      CountAppend(a[1..], b, c);
    } else {
      assert a + b == b;
    }
  }

  // ---------------------------------------------------------------------
  // Decimal numerals (std::to_string)

  predicate IsDigit(ch: char)
  {
    '0' <= ch <= '9'
  }

  predicate AllDigits(s: string)
  {
    forall k :: 0 <= k < |s| ==> IsDigit(s[k])
  }

  /** A numeral holds no character other than digits. */
  lemma DigitsHaveNo(s: string, c: char)
    requires AllDigits(s) && !IsDigit(c)
    ensures c !in s
  {
  }

  function DigitChar(d: nat): char
    requires d < 10
  {
    ('0' as int + d) as char
  }

  function DigitValue(ch: char): nat
    requires IsDigit(ch)
  {
    ch as int - '0' as int
  }

  /** std::to_string of a non-negative value: its decimal numeral. */
  function NatToString(n: nat): (r: string)
    ensures |r| >= 1 && AllDigits(r)
    ensures |r| > 1 ==> r[0] != '0'
    decreases n
  {
    if n < 10 then [DigitChar(n)] else NatToString(n / 10) + [DigitChar(n % 10)]
  }

  /** The value of a decimal numeral. */
  function ParseNat(s: string): nat
    requires AllDigits(s)
  {
    if s == [] then 0 else 10 * ParseNat(s[..|s| - 1]) + DigitValue(s[|s| - 1])
  }

  lemma {:induction false} ParseNatToString(n: nat)
    ensures ParseNat(NatToString(n)) == n
  {
    if n >= 10 {
      var s := NatToString(n);
      assert s[..|s| - 1] == NatToString(n / 10);
      ParseNatToString(n / 10);
    }
  }

  /** Different values have different numerals. */
  lemma NatToStringInjective(a: nat, b: nat)
    ensures NatToString(a) == NatToString(b) <==> a == b
  {
    if NatToString(a) == NatToString(b) {
      ParseNatToString(a);
      ParseNatToString(b);
    }
  }

  /** std::to_string of an int: a minus sign for negative values, then the
      numeral of the magnitude. */
  function IntToString(i: int): (r: string)
    ensures |r| >= 1
    ensures r[0] == '-' <==> i < 0
    ensures AllDigits(r[1..])
    ensures ',' !in r && ')' !in r
  {
    if i < 0 then "-" + NatToString(-i) else NatToString(i)
  }

  /** A numeral as NatToString writes it: digits, without a leading zero
      unless it is "0". */
  predicate IsNatText(s: string)
  {
    |s| >= 1 && AllDigits(s) && (|s| > 1 ==> s[0] != '0')
  }

  /** Every numeral is the NatToString of its value. */
  lemma {:induction false} NatToStringOfParseNat(s: string)
    requires IsNatText(s)
    ensures NatToString(ParseNat(s)) == s
  {
    if |s| > 1 {
      var p := s[..|s| - 1];
      assert p[0] == s[0];
      NatToStringOfParseNat(p);
      assert ParseNat(p) != 0;
      var n := ParseNat(s);
      assert n / 10 == ParseNat(p) && n % 10 == DigitValue(s[|s| - 1]);
      assert s == p + [s[|s| - 1]];
    }
  }

  /** The form IntToString writes: a numeral, or a minus sign and a numeral
      other than "0". */
  predicate IsIntText(s: string)
  {
    if |s| >= 1 && s[0] == '-' then IsNatText(s[1..]) && s[1..] != "0" else IsNatText(s)
  }

  /** The value of a text of the IntToString form. */
  function ParseInt(s: string): int
    requires IsIntText(s)
  {
    if s[0] == '-' then 0 - ParseNat(s[1..]) as int else ParseNat(s)
  }

  /** IntToString writes the IntToString form, and reading it back gives
      the value written. */
  lemma ParseIntToString(i: int)
    ensures IsIntText(IntToString(i))
    ensures ParseInt(IntToString(i)) == i
  {
    if i < 0 {
      assert IntToString(i)[1..] == NatToString(-i);
      ParseNatToString(-i);
    } else {
      ParseNatToString(i);
    }
  }

  /** Each text of the IntToString form is written for its value only. */
  lemma IntToStringOfParseInt(s: string)
    requires IsIntText(s)
    ensures IntToString(ParseInt(s)) == s
  {
    if s[0] == '-' {
      NatToStringOfParseNat(s[1..]);
      assert ParseNat(s[1..]) != 0;
      assert s == "-" + s[1..];
    } else {
      NatToStringOfParseNat(s);
    }
  }

  // ---------------------------------------------------------------------
  // Joining and splitting

  /** The parts with `sep` between consecutive ones and nowhere else. */
  function Join(parts: seq<string>, sep: string): string
  {
    if parts == [] then ""
    else if |parts| == 1 then parts[0]
    else parts[0] + sep + Join(parts[1..], sep)
  }

  /** Every part followed by `sep`. */
  function Terminated(parts: seq<string>, sep: string): string
  {
    if parts == [] then "" else parts[0] + sep + Terminated(parts[1..], sep)
  }

  /** Every part preceded by `sep`. */
  function Prefixed(parts: seq<string>, sep: string): string
  {
    if parts == [] then "" else sep + parts[0] + Prefixed(parts[1..], sep)
  }

  lemma {:induction false} TerminatedSnoc(parts: seq<string>, p: string, sep: string)
    ensures Terminated(parts + [p], sep) == Terminated(parts, sep) + p + sep
  {
    if parts != [] {
      assert (parts + [p])[1..] == parts[1..] + [p];
      TerminatedSnoc(parts[1..], p, sep);
    }
  }

  /** Terminating every part is joining them and adding one last separator. */
  lemma {:induction false} TerminatedIsJoinThenSep(parts: seq<string>, sep: string)
    requires parts != []
    ensures Terminated(parts, sep) == Join(parts, sep) + sep
  {
    if |parts| > 1 {
      TerminatedIsJoinThenSep(parts[1..], sep);
    }
  }

  /** Prefixing every part is one separator and then the joined parts. */
  lemma {:induction false} PrefixedIsSepThenJoin(parts: seq<string>, sep: string)
    requires parts != []
    ensures Prefixed(parts, sep) == sep + Join(parts, sep)
  {
    if |parts| > 1 {
      PrefixedIsSepThenJoin(parts[1..], sep);
    }
  }

  lemma {:induction false} PrefixedAppend(a: seq<string>, b: seq<string>, sep: string)
    ensures Prefixed(a + b, sep) == Prefixed(a, sep) + Prefixed(b, sep)
  {
    if a != [] {
      assert (a + b)[1..] == a[1..] + b;
      PrefixedAppend(a[1..], b, sep);
    } else {
      assert a + b == b;
    }
  }

  lemma {:induction false} JoinAppend(a: seq<string>, b: seq<string>, sep: string)
    requires a != [] && b != []
    ensures Join(a + b, sep) == Join(a, sep) + sep + Join(b, sep)
  {
    if |a| > 1 {
      assert (a + b)[1..] == a[1..] + b;
      JoinAppend(a[1..], b, sep);
    } else {
      assert (a + b)[1..] == b;
    }
  }

  /** A separator character that no part holds occurs once between each two
      consecutive parts and nowhere else. */
  lemma {:induction false} JoinCount(parts: seq<string>, c: char)
    requires forall k :: 0 <= k < |parts| ==> c !in parts[k]
    ensures Count(Join(parts, [c]), c) == if parts == [] then 0 else |parts| - 1
  {
    if |parts| > 1 {
      JoinCount(parts[1..], c);
      CountAppend(parts[0], [c], c);
      CountAppend(parts[0] + [c], Join(parts[1..], [c]), c);
    }
  }

  /** The joined text starts as the first part does. */
  lemma {:induction false} JoinHead(parts: seq<string>, sep: string)
    requires parts != [] && parts[0] != []
    ensures Join(parts, sep) != [] && Join(parts, sep)[0] == parts[0][0]
  {
  }

  /** The joined text ends as the last part does. */
  lemma {:induction false} JoinLast(parts: seq<string>, sep: string)
    requires parts != [] && parts[|parts| - 1] != []
    ensures var j := Join(parts, sep); j != [] && j[|j| - 1] == parts[|parts| - 1][|parts[|parts| - 1]| - 1]
  {
    if |parts| > 1 {
      JoinLast(parts[1..], sep);
    }
  }

  /** The lines std::getline extracts from `s` one after the other: `s` cut
      at every '\n', where a final '\n' does not start an empty last line. */
  function Lines(s: string): (ls: seq<string>)
    ensures forall k :: 0 <= k < |ls| ==> '\n' !in ls[k]
    ensures ls == [] <==> s == []
    decreases |s|
  {
    if s == [] then []
    else
      var i := FindChar(s, '\n');
      if i == |s| then [s] else [s[..i]] + Lines(s[i + 1..])
  }

  /** A line, its '\n' and the rest: the line comes out first. */
  lemma LinesCons(line: string, rest: string)
    requires '\n' !in line
    ensures Lines(line + "\n" + rest) == [line] + Lines(rest)
  {
    var s := line + "\n" + rest;
    var i := FindChar(s, '\n');
    assert s[|line|] == '\n';
    assert forall j :: 0 <= j < |line| ==> s[j] == line[j];
    assert s[..i] == line;
    assert s[i + 1..] == rest;
  }

  /** One getline step: a '\n' ends the current line, any other character
      extends it. */
  lemma LinesAdvance(line: string, data: string, i: nat)
    requires '\n' !in line && i < |data|
    ensures data[i] == '\n' ==> Lines(line + data[i..]) == [line] + Lines(data[i + 1..])
    ensures data[i] != '\n' ==> Lines(line + data[i..]) == Lines((line + [data[i]]) + data[i + 1..])
  {
    if data[i] == '\n' {
      assert line + data[i..] == line + "\n" + data[i + 1..];
      LinesCons(line, data[i + 1..]);
    } else {
      assert (line + [data[i]]) + data[i + 1..] == line + data[i..];
    }
  }

  /** One getline step, with the lines already collected in front. */
  lemma LinesStep(lines: seq<string>, line: string, data: string, i: nat)
    requires '\n' !in line && i < |data|
    ensures data[i] == '\n' ==>
      lines + Lines(line + data[i..]) == (lines + [line]) + Lines("" + data[i + 1..])
    ensures data[i] != '\n' ==>
      '\n' !in line + [data[i]] && lines + Lines(line + data[i..]) == lines + Lines((line + [data[i]]) + data[i + 1..])
  {
    LinesAdvance(line, data, i);
    if data[i] == '\n' {
      assert "" + data[i + 1..] == data[i + 1..];
      assert lines + ([line] + Lines(data[i + 1..])) == (lines + [line]) + Lines(data[i + 1..]);
    }
  }

  /** Text without a '\n' is one line, or none when it is empty. */
  lemma LinesOfOneLine(line: string)
    requires '\n' !in line
    ensures Lines(line) == if line == [] then [] else [line]
  {
  }

  /** Splitting undoes terminating each line with '\n'. */
  lemma {:induction false} LinesOfTerminated(lines: seq<string>)
    requires forall k :: 0 <= k < |lines| ==> '\n' !in lines[k]
    ensures Lines(Terminated(lines, "\n")) == lines
  {
    if lines != [] {
      LinesOfTerminated(lines[1..]);
      LinesCons(lines[0], Terminated(lines[1..], "\n"));
    }
  }

  /** Joining the lines again gives back the text, less a final '\n'. */
  lemma {:induction false} JoinOfLines(s: string)
    ensures Join(Lines(s), "\n") == if s != [] && s[|s| - 1] == '\n' then s[..|s| - 1] else s
  {
    if s != [] {
      var i := FindChar(s, '\n');
      if i < |s| {
        var line, rest := s[..i], s[i + 1..];
        assert s == (line + "\n") + rest;
        var ls := Lines(s);
        assert ls == [line] + Lines(rest);
        if rest == [] {
          assert ls == [line];
          assert s[..|s| - 1] == line;
        } else {
          var tail := Lines(rest);
          JoinOfLines(rest);
          assert Join(ls, "\n") == (line + "\n") + Join(tail, "\n") by {
            assert tail != [] && ls[1..] == tail;
          }
          DropLast(line + "\n", rest);
        }
      }
    }
  }

  /** The last character of `a + b`, and what precedes it, when `b` is not
      empty. */
  lemma DropLast(a: string, b: string)
    requires b != []
    ensures (a + b)[|a + b| - 1] == b[|b| - 1]
    ensures (a + b)[..|a + b| - 1] == a + b[..|b| - 1]
  {
  }

  /** The first `c` in `prefix + [c] + rest` is the one after `prefix` when
      `prefix` holds none. */
  lemma FindCharAfter(prefix: string, c: char, rest: string)
    requires c !in prefix
    ensures FindChar(prefix + [c] + rest, c) == |prefix|
  {
    var s := prefix + [c] + rest;
    assert s[|prefix|] == c;
    assert forall j :: 0 <= j < |prefix| ==> s[j] == prefix[j];
  }

  /** The fields of `s` between its `c` characters, an empty text being one
      empty field. */
  function Fields(s: string, c: char): (fs: seq<string>)
    ensures |fs| >= 1
    ensures forall k :: 0 <= k < |fs| ==> c !in fs[k]
    decreases |s|
  {
    var i := FindChar(s, c);
    if i == |s| then [s] else [s[..i]] + Fields(s[i + 1..], c)
  }

  /** Splitting at `c` undoes joining parts that hold no `c`. */
  lemma {:induction false} FieldsOfJoin(parts: seq<string>, c: char)
    requires parts != []
    requires forall k :: 0 <= k < |parts| ==> c !in parts[k]
    ensures Fields(Join(parts, [c]), c) == parts
  {
    if |parts| > 1 {
      var rest := Join(parts[1..], [c]);
      var s := parts[0] + [c] + rest;
      assert Join(parts, [c]) == s;
      FindCharAfter(parts[0], c, rest);
      assert s[..|parts[0]|] == parts[0] && s[|parts[0]| + 1..] == rest;
      assert Fields(s, c) == [parts[0]] + Fields(rest, c);
      FieldsOfJoin(parts[1..], c);
      assert [parts[0]] + parts[1..] == parts;
    } else {
      assert parts[0] == Join(parts, [c]);
    }
  }
}
