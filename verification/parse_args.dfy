/** The quoted-argument tokenizer `parse_args` of src/main.py: one pass over
    the characters with an in-quotes flag and an accumulator, then padding
    with empty strings up to an expected count. */
module ArgParser {
  import opened Results

  /** The scanner's state between two characters: the tokens emitted so far,
      the token being accumulated, and whether a quote is open. */
  datatype ScanState = ScanState(args: seq<string>, current: string, inQuotes: bool)

  const Start := ScanState([], "", false)

  /** One iteration of the scanning loop. A quote toggles the flag and is
      dropped; an unquoted space emits the accumulator when it is non-empty
      or some token was already emitted, and is otherwise skipped; any other
      character (a quoted space included) is accumulated. */
  function Step(st: ScanState, c: char): ScanState {
    if c == '"' then
      st.(inQuotes := !st.inQuotes)
    else if c == ' ' && !st.inQuotes then
      if st.current != [] || |st.args| > 0 then ScanState(st.args + [st.current], [], st.inQuotes)
      else st
    else
      st.(current := st.current + [c])
  }

  /** The state after scanning all of `s` from the start state. */
  function Scan(s: string): ScanState
    decreases |s|
  {
    if s == [] then Start else Step(Scan(s[..|s| - 1]), s[|s| - 1])
  }

  /** After the loop: the accumulator is emitted when it is non-empty or a
      quote is still open. */
  function Finish(st: ScanState): seq<string> {
    if st.current != [] || st.inQuotes then st.args + [st.current] else st.args
  }

  /** The tokens of `s` before any padding. */
  function Tokenize(s: string): seq<string> {
    Finish(Scan(s))
  }

  function Max(a: int, b: int): int {
    if a < b then b else a
  }

  /** Padding to `expected_count` (`None` for Python's `None`): only a
      truthy count larger than the number of tokens pads, with "" entries;
      nothing is ever cut off. */
  function Pad(args: seq<string>, expected: Option<int>): (r: seq<string>)
    ensures |r| >= |args| && r[..|args|] == args
    ensures forall i :: |args| <= i < |r| ==> r[i] == ""
    ensures expected.Some? && expected.value > 0 ==> |r| == Max(|args|, expected.value)
    ensures expected.None? || expected.value <= |args| ==> r == args
  {
    if expected.Some? && expected.value != 0 && |args| < expected.value then
      args + seq(expected.value - |args|, _ => "")
    else
      args
  }

  /** `parse_args(args_str, expected_count)`. */
  function ParseArgs(s: string, expected: Option<int>): seq<string> {
    Pad(Tokenize(s), expected)
  }

  /** The loop of `parse_args` as written, with the scanner state kept in
      three variables; it computes `ParseArgs`. */
  method ParseArgsLoop(s: string, expected: Option<int>) returns (r: seq<string>)
    ensures r == ParseArgs(s, expected)
  {
    var args: seq<string> := [];
    var current: string := "";
    var inQuotes := false;
    var i := 0;
    while i < |s|
      invariant 0 <= i <= |s|
      invariant ScanState(args, current, inQuotes) == Scan(s[..i])
    {
      var c := s[i];
      if c == '"' {
        inQuotes := !inQuotes;
      } else if c == ' ' && !inQuotes {
        if current != [] || |args| > 0 {
          args := args + [current];
          current := "";
        }
      } else {
        current := current + [c];
      }
      assert s[..i + 1][..i] == s[..i];
      i := i + 1;
    }
    assert s[..i] == s;
    if current != [] || inQuotes {
      args := args + [current];
    }
    if expected.Some? && expected.value != 0 && |args| < expected.value {
      args := args + seq(expected.value - |args|, _ => "");
    }
    r := args;
  }

  // ---------------------------------------------------------------------
  // No quote character survives.

  predicate QuoteFree(s: string) {
    forall i :: 0 <= i < |s| ==> s[i] != '"'
  }

  predicate CleanState(st: ScanState) {
    && QuoteFree(st.current)
    && forall k :: 0 <= k < |st.args| ==> QuoteFree(st.args[k])
  }

  lemma {:induction false} ScanIsClean(s: string)
    ensures CleanState(Scan(s))
    decreases |s|
  {
    if s != [] {
      ScanIsClean(s[..|s| - 1]);
    }
  }

  /** No token `parse_args` returns contains a double quote: quotes only
      toggle the in-quotes flag. */
  lemma NoQuoteInTokens(s: string, expected: Option<int>)
    ensures forall k :: 0 <= k < |ParseArgs(s, expected)| ==> QuoteFree(ParseArgs(s, expected)[k])
  {
    ScanIsClean(s);
    var toks := Tokenize(s);
    var r := ParseArgs(s, expected);
    forall k | 0 <= k < |r|
      ensures QuoteFree(r[k])
    {
      if k < |toks| {
        assert r[k] == r[..|toks|][k];
      }
    }
  }

  // ---------------------------------------------------------------------
  // The tokens spell the input without quotes and unquoted spaces.

  function QuoteCount(s: string): nat
    decreases |s|
  {
    if s == [] then 0 else QuoteCount(s[..|s| - 1]) + (if s[|s| - 1] == '"' then 1 else 0)
  }

  /** Whether a quote is open after `s`: an odd number of quotes. */
  predicate InQuotes(s: string) {
    QuoteCount(s) % 2 == 1
  }

  /** The characters of `s` that belong to some token: everything but the
      quotes and the spaces outside quotes. */
  function Kept(s: string): string
    decreases |s|
  {
    if s == [] then []
    else
      var init := s[..|s| - 1];
      var c := s[|s| - 1];
      Kept(init) + (if c == '"' || (c == ' ' && !InQuotes(init)) then [] else [c])
  }

  /** All tokens joined together. */
  function Concat(ts: seq<string>): string
    decreases |ts|
  {
    if ts == [] then [] else Concat(ts[..|ts| - 1]) + ts[|ts| - 1]
  }

  lemma ConcatAppend(ts: seq<string>, t: string)
    ensures Concat(ts + [t]) == Concat(ts) + t
  {
    assert (ts + [t])[..|ts|] == ts;
  }

  lemma {:induction false} ScanSpellsKept(s: string)
    ensures Scan(s).inQuotes == InQuotes(s)
    ensures Concat(Scan(s).args) + Scan(s).current == Kept(s)
    decreases |s|
  {
    if s != [] {
      var init := s[..|s| - 1];
      ScanSpellsKept(init);
      var st := Scan(init);
      if s[|s| - 1] == ' ' && !st.inQuotes && (st.current != [] || |st.args| > 0) {
        ConcatAppend(st.args, st.current);
      }
    }
  }

  /** Joined together, the tokens (before padding) are the input with every
      quote and every unquoted space removed. */
  lemma TokensSpellInput(s: string)
    ensures Concat(Tokenize(s)) == Kept(s)
  {
    ScanSpellsKept(s);
    var st := Scan(s);
    if st.current != [] || st.inQuotes {
      ConcatAppend(st.args, st.current);
    }
  }

  // ---------------------------------------------------------------------
  // Leading spaces and an empty leading quoted token are dropped.

  /** Whatever brings the scanner back to its start state can be dropped
      from the front of the input. */
  lemma {:induction false} ScanAfterReset(p: string, s: string)
    requires Scan(p) == Start
    ensures Scan(p + s) == Scan(s)
    decreases |s|
  {
    if s == [] {
      assert p + s == p;
    } else {
      var init := s[..|s| - 1];
      ScanAfterReset(p, init);
      assert (p + s)[..|p + s| - 1] == p + init;
    }
  }

  predicate AllSpaces(s: string) {
    forall i :: 0 <= i < |s| ==> s[i] == ' '
  }

  lemma {:induction false} SpacesScanToStart(s: string)
    requires AllSpaces(s)
    ensures Scan(s) == Start
    decreases |s|
  {
    if s != [] {
      SpacesScanToStart(s[..|s| - 1]);
    }
  }

  /** Empty input, or input of spaces only, gives no tokens. */
  lemma BlankInputHasNoTokens(s: string)
    requires AllSpaces(s)
    ensures Tokenize(s) == []
  {
    SpacesScanToStart(s);
  }

  /** Leading unquoted spaces are skipped. */
  lemma LeadingSpacesSkipped(p: string, s: string)
    requires AllSpaces(p)
    ensures Tokenize(p + s) == Tokenize(s)
  {
    SpacesScanToStart(p);
    ScanAfterReset(p, s);
  }

  /** An empty quoted first token `""` is dropped. */
  lemma EmptyQuotedFirstTokenDropped(s: string)
    ensures Tokenize("\"\"" + s) == Tokenize(s)
  {
    assert "\"\""[..1] == "\"";
    assert "\""[..0] == "";
    ScanAfterReset("\"\"", s);
  }

  // ---------------------------------------------------------------------
  // Without quotes, the tokens are a split on single spaces.

  /** `s` without its leading spaces (Python's `s.lstrip(' ')`). */
  function TrimSpaces(s: string): (r: string)
    ensures |r| <= |s|
    decreases |s|
  {
    if s != [] && s[0] == ' ' then TrimSpaces(s[1..]) else s
  }

  /** `TrimSpaces(s)` is what follows the longest run of spaces that opens `s`. */
  lemma {:induction false} TrimSpacesShape(s: string)
    ensures var r := TrimSpaces(s);
      && r == s[|s| - |r|..]
      && AllSpaces(s[..|s| - |r|])
      && (r == [] || r[0] != ' ')
    decreases |s|
  {
    if s != [] && s[0] == ' ' {
      TrimSpacesShape(s[1..]);
      var r := TrimSpaces(s[1..]);
      assert s[1..][|s| - 1 - |r|..] == s[|s| - |r|..];
      var pre := s[..|s| - |r|];
      var tail := s[1..][..|s| - 1 - |r|];
      forall i | 0 <= i < |pre|
        ensures pre[i] == ' '
      {
        if i > 0 {
          assert pre[i] == tail[i - 1];
        }
      }
    }
  }

  lemma {:induction false} TrimSpacesSnoc(s: string, c: char)
    ensures TrimSpaces(s + [c]) == if TrimSpaces(s) == [] then (if c == ' ' then [] else [c]) else TrimSpaces(s) + [c]
    decreases |s|
  {
    if s != [] && s[0] == ' ' {
      assert (s + [c])[1..] == s[1..] + [c];
      TrimSpacesSnoc(s[1..], c);
    } else if s == [] {
      assert s + [c] == [c];
      if c == ' ' {
        assert [c][1..] == [];
      }
    }
  }

  /** Python's `s.split(' ')`: the pieces between single spaces, so two
      adjacent spaces give an empty piece; always at least one piece. */
  function SplitSpaces(s: string): (r: seq<string>)
    ensures |r| > 0
    decreases |s|
  {
    if s == [] then [""]
    else
      var p := SplitSpaces(s[..|s| - 1]);
      if s[|s| - 1] == ' ' then p + [""]
      else p[..|p| - 1] + [p[|p| - 1] + [s[|s| - 1]]]
  }

  function DropEmptyLast(parts: seq<string>): seq<string>
    requires |parts| > 0
  {
    if parts[|parts| - 1] == "" then parts[..|parts| - 1] else parts
  }

  lemma {:induction false} QuoteFreeScan(s: string)
    requires QuoteFree(s)
    ensures !Scan(s).inQuotes
    ensures TrimSpaces(s) == [] ==> Scan(s) == Start
    ensures TrimSpaces(s) != [] ==>
      && (|Scan(s).args| > 0 || Scan(s).current != [])
      && Scan(s).args + [Scan(s).current] == SplitSpaces(TrimSpaces(s))
    decreases |s|
  {
    if s != [] {
      var init := s[..|s| - 1];
      var c := s[|s| - 1];
      assert init + [c] == s;
      QuoteFreeScan(init);
      TrimSpacesSnoc(init, c);
      var t := TrimSpaces(init);
      if t != [] {
        assert TrimSpaces(s) == t + [c];
        assert (t + [c])[..|t + [c]| - 1] == t;
      } else if c != ' ' {
        assert TrimSpaces(s) == [c];
        assert [c][..0] == [];
      }
    }
  }

  /** For input without quotes, `parse_args` is `s.lstrip(' ').split(' ')`
      with a final empty piece dropped: every unquoted space after the first
      token closes a token, even an empty one. */
  lemma QuoteFreeTokens(s: string)
    requires QuoteFree(s)
    ensures Tokenize(s) == DropEmptyLast(SplitSpaces(TrimSpaces(s)))
  {
    QuoteFreeScan(s);
    var st := Scan(s);
    if TrimSpaces(s) != [] {
      var parts := st.args + [st.current];
      assert parts[..|parts| - 1] == st.args;
    }
  }

  // ---------------------------------------------------------------------
  // An open quote at the end still yields its token.

  /** When the input ends inside quotes the accumulator is emitted even if
      it is empty, so the last token is whatever followed the open quote. */
  lemma OpenQuoteEmitsLastToken(s: string)
    requires InQuotes(s)
    ensures Tokenize(s) == Scan(s).args + [Scan(s).current]
    ensures |Tokenize(s)| > 0
  {
    ScanSpellsKept(s);
  }

  // ---------------------------------------------------------------------
  // Worked cases.

  lemma ScanSnoc(s: string, c: char)
    ensures Scan(s + [c]) == Step(Scan(s), c)
  {
    assert (s + [c])[..|s|] == s;
  }

  /** Characters that are neither quotes nor unquoted spaces go straight into
      the accumulator. */
  lemma {:induction false} ScanAccumulates(p: string, q: string)
    requires QuoteFree(q)
    requires Scan(p).inQuotes || forall i :: 0 <= i < |q| ==> q[i] != ' '
    ensures Scan(p + q) == Scan(p).(current := Scan(p).current + q)
    decreases |q|
  {
    if q == [] {
      assert p + q == p;
    } else {
      var init := q[..|q| - 1];
      ScanAccumulates(p, init);
      assert p + q == (p + init) + [q[|q| - 1]];
      ScanSnoc(p + init, q[|q| - 1]);
      assert Scan(p).current + init + [q[|q| - 1]] == Scan(p).current + q;
    }
  }

  /** Two unquoted spaces after a token give an empty token between. */
  lemma ExampleDoubleSpace()
    ensures Tokenize("a  b") == ["a", "", "b"]
    ensures Tokenize("a  ") == ["a", ""]
  {
    ScanSnoc("", 'a');
    assert "" + ['a'] == "a";
    assert Scan("a") == ScanState([], "a", false);
    ScanSnoc("a", ' ');
    assert "a" + [' '] == "a ";
    assert Scan("a ") == ScanState(["a"], "", false);
    ScanSnoc("a ", ' ');
    assert "a " + [' '] == "a  ";
    assert Scan("a  ") == ScanState(["a", ""], "", false);
    ScanSnoc("a  ", 'b');
    assert "a  " + ['b'] == "a  b";
    assert Scan("a  b") == ScanState(["a", ""], "b", false);
  }

  predicate NoSpaces(s: string) {
    forall i :: 0 <= i < |s| ==> s[i] != ' '
  }

  /** The scanner state after a word and one space: the word is emitted. */
  lemma ScanWordThenSpace(w: string)
    requires w != [] && QuoteFree(w) && NoSpaces(w)
    ensures Scan(w + [' ']) == ScanState([w], "", false)
  {
    assert Scan([]) == Start;
    assert forall i :: 0 <= i < |w| ==> w[i] != ' ';
    ScanAccumulates([], w);
    assert [] + w == w;
    assert Scan(w) == ScanState([], w, false);
    ScanSnoc(w, ' ');
    assert Step(ScanState([], w, false), ' ') == ScanState([w], [], false);
  }

  lemma QuoteAfterSpace(w: string)
    ensures w + " \"" == (w + [' ']) + ['"']
  {
    var p1 := w + [' '];
    var p2 := w + " \"";
    assert |p2| == |p1| + 1;
    forall i | 0 <= i < |p2|
      ensures p2[i] == (p1 + ['"'])[i]
    {
      if i < |w| {
        assert p2[i] == w[i];
      }
    }
  }

  /** The scanner state after a word, one space, an opening quote and
      quote-free text. */
  lemma ScanWordThenOpenQuote(w: string, q: string)
    requires w != [] && QuoteFree(w) && NoSpaces(w) && QuoteFree(q)
    ensures Scan(w + " \"" + q) == ScanState([w], q, true)
  {
    ScanWordThenSpace(w);
    QuoteAfterSpace(w);
    ScanSnoc(w + [' '], '"');
    ScanAccumulates(w + " \"", q);
  }

  /** A word, one space, then a quoted token: two tokens, the second keeping
      its spaces, whether or not the closing quote is there; with the quote
      left open the token is emitted even when empty. */
  lemma WordThenQuoted(w: string, q: string)
    requires w != [] && QuoteFree(w) && NoSpaces(w) && QuoteFree(q)
    ensures Tokenize(w + " \"" + q + "\"") == (if q == [] then [w] else [w, q])
    ensures Tokenize(w + " \"" + q) == [w, q]
  {
    ScanWordThenOpenQuote(w, q);
    ScanSnoc(w + " \"" + q, '"');
    assert w + " \"" + q + "\"" == (w + " \"" + q) + ['"'];
  }

  /** An unterminated quote still yields its token, even an empty one. */
  lemma ExampleOpenQuote()
    ensures Tokenize("a \"x y") == ["a", "x y"]
    ensures Tokenize("a \"") == ["a", ""]
  {
    WordThenQuoted("a", "x y");
    assert "a" + " \"" + "x y" == "a \"x y";
    WordThenQuoted("a", "");
    assert "a" + " \"" + "" == "a \"";
  }

  /** Without an expected count nothing is padded. */
  lemma ExampleUnterminated()
    ensures ParseArgs("a \"unterminated", None) == ["a", "unterminated"]
  {
    WordThenQuoted("a", "unterminated");
    assert "a" + " \"" + "unterminated" == "a \"unterminated";
  }

  /** A quoted pair with nothing between is no token on its own, but padding
      to one expected token gives [""]. */
  lemma ExampleEmptyQuotes()
    ensures Tokenize("\"\"") == []
    ensures ParseArgs("\"\"", Some(1)) == [""]
  {
    EmptyQuotedFirstTokenDropped("");
    assert "\"\"" + "" == "\"\"";
  }

  /** A quoted token keeps its spaces. */
  lemma ExampleQuotedTokens()
    ensures Tokenize("title \"multi word desc\"") == ["title", "multi word desc"]
  {
    WordThenQuoted("title", "multi word desc");
    assert "title" + " \"" + "multi word desc" + "\"" == "title \"multi word desc\"";
  }

  /** Two tokens already meet an expected count of two. */
  lemma ExampleQuotedDescription()
    ensures ParseArgs("title \"multi word desc\"", Some(2)) == ["title", "multi word desc"]
  {
    ExampleQuotedTokens();
  }
}
