/** The command-line tokenizer of src/parser.rs.

    Whitespace separates tokens; text between single quotes or between double
    quotes is copied as it is (the two kinds of quote behave the same, and a
    backslash is an ordinary character); quoted and unquoted pieces with no
    whitespace between them form one token; an unterminated quote runs to the
    end of the input. */
module Parser {
  import opened Text

  predicate IsQuote(c: char) {
    c == '\'' || c == '"'
  }

  /** A scan position inside a token, outside any quote: the rest of the
      token's text, and the input left after the token (empty, or starting
      with the whitespace that ended it). */
  function Word(s: string): (p: (string, string))
    ensures |p.1| <= |s|
    ensures s != [] && !IsWhitespace(s[0]) ==> |p.1| < |s|
    decreases |s|
  {
    if s == [] || IsWhitespace(s[0]) then ([], s)
    else if IsQuote(s[0]) then Quoted(s[1..], s[0])
    else
      var (w, rest) := Word(s[1..]);
      ([s[0]] + w, rest)
  }

  /** A scan position inside a quote opened by `q`: everything up to the
      closing `q` is copied; after it the token goes on unquoted. */
  function Quoted(s: string, q: char): (p: (string, string))
    ensures |p.1| <= |s|
    decreases |s|
  {
    if s == [] then ([], [])
    else if s[0] == q then Word(s[1..])
    else
      var (w, rest) := Quoted(s[1..], q);
      ([s[0]] + w, rest)
  }

  /** The tokens of a line: whitespace between tokens is skipped, and each
      token is read by `Word`. */
  function Tokens(s: string): (r: seq<string>)
    ensures |r| <= |s|
    decreases |s|
  {
    if s == [] then []
    else if IsWhitespace(s[0]) then Tokens(s[1..])
    else
      var (w, rest) := Word(s);
      [w] + Tokens(rest)
  }

  /** `tokenize` (src/parser.rs:13-56): the outer loop skips whitespace and
      reads one token at each other character. */
  method Tokenize(input: string) returns (args: seq<string>)
    ensures args == Tokens(input)
  {
    args := [];
    var i := 0;
    while i < |input|
      invariant 0 <= i <= |input|
      invariant args + Tokens(input[i..]) == Tokens(input)
      decreases |input| - i
    {
      if IsWhitespace(input[i]) {
        SkipStep(input, i);
        i := i + 1;
        continue;
      }
      var start := i;
      var arg;
      arg, i := ScanToken(input, start);
      TokenStep(input, start, i, arg);
      assert args + ([arg] + Tokens(input[i..])) == (args + [arg]) + Tokens(input[i..]);
      args := args + [arg];
    }
  }

  /** The token loop of `tokenize` (src/parser.rs:23-52): copy characters
      into the token until whitespace or the end of the input, copying each
      quoted part without its quotes. It stops at the whitespace that ends
      the token. */
  method ScanToken(input: string, start: nat) returns (arg: string, i: nat)
    requires start < |input| && !IsWhitespace(input[start])
    ensures start < i <= |input|
    ensures Word(input[start..]) == (arg, input[i..])
  {
    arg, i := [], start;
    assert arg + Word(input[i..]).0 == Word(input[i..]).0;
    while true
      invariant start <= i <= |input|
      invariant Word(input[start..]) == (arg + Word(input[i..]).0, Word(input[i..]).1)
      invariant i == start ==> arg == []
      decreases |input| - i
    {
      if i < |input| && IsQuote(input[i]) {
        var q := input[i];
        OpenStep(input, i);
        i := i + 1;
        arg, i := CopyQuoted(input, i, q, arg);
      } else if i == |input| || IsWhitespace(input[i]) {
        break;
      } else {
        WordStep(input, i, arg);
        arg := arg + [input[i]];
        i := i + 1;
      }
    }
    assert Word(input[i..]) == ([], input[i..]);
    AppendNothing(arg);
  }

  /** The loop over a quoted part (src/parser.rs:29-34 and 38-43): copy up
      to the closing quote, which is consumed and not copied; without one,
      copy to the end. */
  method CopyQuoted(input: string, from: nat, q: char, prefix: string) returns (arg: string, i: nat)
    requires from <= |input|
    ensures from <= i <= |input|
    ensures (prefix + Quoted(input[from..], q).0, Quoted(input[from..], q).1) == (arg + Word(input[i..]).0, Word(input[i..]).1)
  {
    arg, i := prefix, from;
    while i < |input| && input[i] != q
      invariant from <= i <= |input|
      invariant (prefix + Quoted(input[from..], q).0, Quoted(input[from..], q).1) == (arg + Quoted(input[i..], q).0, Quoted(input[i..], q).1)
      decreases |input| - i
    {
      QuotedStep(input, i, q, arg);
      arg := arg + [input[i]];
      i := i + 1;
    }
    CloseStep(input, i, q);
    if i < |input| {
      i := i + 1;
    }
  }

  lemma SkipStep(s: string, i: nat)
    requires i < |s| && IsWhitespace(s[i])
    ensures Tokens(s[i..]) == Tokens(s[i + 1..])
  {
    assert s[i..][1..] == s[i + 1..];
  }

  lemma OpenStep(s: string, i: nat)
    requires i < |s| && IsQuote(s[i])
    ensures Word(s[i..]) == Quoted(s[i + 1..], s[i])
  {
    assert s[i..][1..] == s[i + 1..];
  }

  lemma QuotedStep(s: string, i: nat, q: char, arg: string)
    requires i < |s| && s[i] != q
    ensures arg + Quoted(s[i..], q).0 == (arg + [s[i]]) + Quoted(s[i + 1..], q).0
    ensures Quoted(s[i..], q).1 == Quoted(s[i + 1..], q).1
  {
    assert s[i..][1..] == s[i + 1..];
    var rest := Quoted(s[i + 1..], q);
    assert Quoted(s[i..], q) == ([s[i]] + rest.0, rest.1);
    assert arg + ([s[i]] + rest.0) == (arg + [s[i]]) + rest.0;
  }

  lemma CloseStep(s: string, i: nat, q: char)
    requires i <= |s| && (i == |s| || s[i] == q)
    ensures i < |s| ==> Quoted(s[i..], q) == Word(s[i + 1..])
    ensures i == |s| ==> Quoted(s[i..], q) == Word(s[i..])
  {
    if i < |s| {
      assert s[i..][1..] == s[i + 1..];
    }
  }

  lemma WordStep(s: string, i: nat, arg: string)
    requires i < |s| && !IsQuote(s[i]) && !IsWhitespace(s[i])
    ensures arg + Word(s[i..]).0 == (arg + [s[i]]) + Word(s[i + 1..]).0
    ensures Word(s[i..]).1 == Word(s[i + 1..]).1
  {
    assert s[i..][1..] == s[i + 1..];
    var rest := Word(s[i + 1..]);
    assert Word(s[i..]) == ([s[i]] + rest.0, rest.1);
    assert arg + ([s[i]] + rest.0) == (arg + [s[i]]) + rest.0;
  }

  lemma TokenStep(s: string, start: nat, i: nat, arg: string)
    requires start < |s| && !IsWhitespace(s[start]) && start <= i <= |s|
    requires Word(s[start..]) == (arg, s[i..])
    ensures Tokens(s[start..]) == [arg] + Tokens(s[i..])
  {
    assert s[start..][0] == s[start];
  }

  // ---------------------------------------------------------------------
  // Whitespace-only input

  /** A line yields no token exactly when it is empty or all whitespace. */
  lemma {:induction false} TokensEmptyIff(s: string)
    ensures Tokens(s) == [] <==> AllWhitespace(s)
    decreases |s|
  {
    if s != [] {
      TokensEmptyIff(s[1..]);
      if IsWhitespace(s[0]) {
        assert AllWhitespace(s) <==> AllWhitespace(s[1..]) by {
          if AllWhitespace(s[1..]) {
            forall i | 0 <= i < |s| ensures IsWhitespace(s[i]) {
              if i > 0 { assert s[i] == s[1..][i - 1]; }
            }
          }
        }
      }
    }
  }

  // ---------------------------------------------------------------------
  // Quote-free input is split on whitespace

  predicate QuoteFree(s: string) {
    forall i :: 0 <= i < |s| ==> !IsQuote(s[i])
  }

  /** The pieces between whitespace characters, empty ones included: the
      reference meaning of "split on whitespace". */
  function Pieces(s: string): (r: seq<string>)
    ensures |r| >= 1
    decreases |s|
  {
    if s == [] then [[]]
    else if IsWhitespace(s[0]) then [[]] + Pieces(s[1..])
    else
      var p := Pieces(s[1..]);
      [[s[0]] + p[0]] + p[1..]
  }

  /** The non-empty elements of `xs`, in order. */
  function NonEmpty(xs: seq<string>): seq<string>
    decreases |xs|
  {
    if xs == [] then []
    else if xs[0] == [] then NonEmpty(xs[1..])
    else [xs[0]] + NonEmpty(xs[1..])
  }

  lemma {:induction false} WordQuoteFree(s: string)
    requires QuoteFree(s)
    ensures var (w, rest) := Word(s);
      && (rest == [] ==> Pieces(s) == [w])
      && (rest != [] ==> Pieces(s) == [w] + Pieces(rest[1..]))
    decreases |s|
  {
    if s != [] && !IsWhitespace(s[0]) {
      assert !IsQuote(s[0]);
      WordQuoteFree(s[1..]);
    }
  }

  /** What follows a token is a suffix of the input, and is empty or starts
      with whitespace. */
  lemma {:induction false} WordRest(s: string)
    ensures var rest := Word(s).1;
      rest == s[|s| - |rest|..] && (rest == [] || IsWhitespace(rest[0]))
    decreases |s|
  {
    if s != [] && !IsWhitespace(s[0]) {
      var t := s[1..];
      var a := Word(s).1;
      if IsQuote(s[0]) {
        QuotedRest(t, s[0]);
      } else {
        WordRest(t);
      }
      assert t[|t| - |a|..] == s[|s| - |a|..];
    }
  }

  lemma {:induction false} QuotedRest(s: string, q: char)
    ensures var rest := Quoted(s, q).1;
      rest == s[|s| - |rest|..] && (rest == [] || IsWhitespace(rest[0]))
    decreases |s|
  {
    if s != [] {
      var t := s[1..];
      var a := Quoted(s, q).1;
      if s[0] == q {
        WordRest(t);
      } else {
        QuotedRest(t, q);
      }
      assert t[|t| - |a|..] == s[|s| - |a|..];
    }
  }

  /** Without quote characters, tokenizing is splitting on whitespace and
      dropping the empty pieces. */
  lemma {:induction false} TokensQuoteFree(s: string)
    requires QuoteFree(s)
    ensures Tokens(s) == NonEmpty(Pieces(s))
    decreases |s|
  {
    if s == [] {
    } else if IsWhitespace(s[0]) {
      TokensQuoteFree(s[1..]);
    } else {
      var (w, rest) := Word(s);
      WordQuoteFree(s);
      assert !IsQuote(s[0]);
      assert w != [] && w[0] == s[0];
      if rest != [] {
        WordRest(s);
        assert QuoteFree(rest[1..]) by {
          forall i | 0 <= i < |rest| - 1 ensures !IsQuote(rest[1..][i]) {
            assert rest[1..][i] == s[|s| - |rest| + 1 + i];
          }
        }
        TokensQuoteFree(rest[1..]);
        assert Tokens(rest) == Tokens(rest[1..]);
      }
      var ps := Pieces(s);
      assert NonEmpty(ps) == [w] + NonEmpty(ps[1..]);
    }
  }

  // ---------------------------------------------------------------------
  // Quotes

  /** Inside a quote, text without the closing quote character is copied
      as it is, whitespace and backslashes included. */
  lemma {:induction false} QuotedCopies(body: string, q: char, rest: string)
    requires q !in body
    ensures Quoted(body + rest, q) == (body + Quoted(rest, q).0, Quoted(rest, q).1)
    decreases |body|
  {
    if body != [] {
      assert body[0] != q && q !in body[1..];
      QuotedCopies(body[1..], q, rest);
      var t := body + rest;
      assert t[0] == body[0];
      assert t[1..] == body[1..] + rest;
      var x := Quoted(rest, q);
      assert Quoted(t, q) == ([body[0]] + Quoted(t[1..], q).0, Quoted(t[1..], q).1);
      assert [body[0]] + (body[1..] + x.0) == body + x.0;
    } else {
      assert body + rest == rest;
      assert body + Quoted(rest, q).0 == Quoted(rest, q).0;
    }
  }

  /** A quoted part is copied without its delimiting quotes and the token goes
      on after it. Both kinds of quote behave this way. */
  lemma QuotedPart(q: char, body: string, rest: string)
    requires IsQuote(q) && q !in body
    ensures Word([q] + body + [q] + rest) == (body + Word(rest).0, Word(rest).1)
  {
    var s := [q] + body + [q] + rest;
    assert s[1..] == body + ([q] + rest);
    QuotedCopies(body, q, [q] + rest);
    assert ([q] + rest)[1..] == rest;
  }

  /** An unterminated quote takes the rest of the input into the token. */
  lemma UnterminatedQuote(q: char, body: string)
    requires IsQuote(q) && q !in body
    ensures Word([q] + body) == (body, [])
    ensures Tokens([q] + body) == [body]
  {
    assert ([q] + body)[1..] == body + [];
    QuotedCopies(body, q, []);
    AppendNothing(body);
    assert !IsWhitespace(q);
    assert Tokens([q] + body) == [body] + Tokens([]);
  }

  /** A whole quoted argument is one token, whatever whitespace it holds. */
  lemma QuotedToken(q: char, body: string)
    requires IsQuote(q) && q !in body
    ensures Tokens([q] + body + [q]) == [body]
  {
    QuotedPart(q, body, []);
    AppendNothing([q] + body + [q]);
    AppendNothing(body);
  }

  /** Within a double-quoted part a backslash is an ordinary character: the
      input `"\"x"` is the one token `\x`: the second `"` closes the quote
      rather than being escaped, and the third opens a quote that runs to the
      end. */
  lemma DoubleQuoteBackslashIsLiteral()
    ensures Tokens(['"', '\\', '"', 'x', '"']) == [['\\', 'x']]
  {
    var s := ['"', '\\', '"', 'x', '"'];
    var tail: string := ['x', '"'];
    assert s == ['"'] + ['\\'] + ['"'] + tail;
    QuotedPart('"', ['\\'], tail);
    UnterminatedQuote('"', []);
    AppendNothing(['"']);
    assert tail[1..] == ['"'];
    assert Word(tail) == (['x'] + Word(['"']).0, Word(['"']).1);
    assert Word(['"']) == ([], []);
    AppendNothing(['x']);
    assert Word(tail) == (['x'], []);
    assert ['\\'] + ['x'] == ['\\', 'x'];
    assert Tokens(s) == [['\\', 'x']] + Tokens([]);
  }

  /** The character with single and double quotes exchanged. */
  function SwapQuote(c: char): char {
    if c == '\'' then '"' else if c == '"' then '\'' else c
  }

  function SwapQuotes(s: string): (r: string)
    ensures |r| == |s|
    decreases |s|
  {
    if s == [] then [] else [SwapQuote(s[0])] + SwapQuotes(s[1..])
  }

  function SwapAll(ts: seq<string>): seq<string>
    decreases |ts|
  {
    if ts == [] then [] else [SwapQuotes(ts[0])] + SwapAll(ts[1..])
  }

  lemma {:induction false} SwapWordQuoted(s: string, q: char)
    ensures Word(SwapQuotes(s)) == (SwapQuotes(Word(s).0), SwapQuotes(Word(s).1))
    ensures Quoted(SwapQuotes(s), SwapQuote(q)) == (SwapQuotes(Quoted(s, q).0), SwapQuotes(Quoted(s, q).1))
    decreases |s|
  {
    if s != [] {
      var t := SwapQuotes(s);
      assert t[0] == SwapQuote(s[0]) && t[1..] == SwapQuotes(s[1..]);
      assert IsWhitespace(t[0]) <==> IsWhitespace(s[0]);
      assert IsQuote(t[0]) <==> IsQuote(s[0]);
      assert t[0] == SwapQuote(q) <==> s[0] == q;
      SwapWordQuoted(s[1..], s[0]);
      SwapWordQuoted(s[1..], q);
      if IsWhitespace(s[0]) {
      } else if IsQuote(s[0]) {
      } else {
        assert SwapQuotes([s[0]] + Word(s[1..]).0) == [s[0]] + SwapQuotes(Word(s[1..]).0);
      }
      if s[0] != q {
        assert SwapQuotes([s[0]] + Quoted(s[1..], q).0) == [t[0]] + SwapQuotes(Quoted(s[1..], q).0);
      }
    }
  }

  /** Double quotes behave exactly like single quotes: exchanging the two
      kinds throughout a line exchanges them in the tokens and changes
      nothing else. */
  lemma {:induction false} TokensSwapQuotes(s: string)
    ensures Tokens(SwapQuotes(s)) == SwapAll(Tokens(s))
    decreases |s|
  {
    if s != [] {
      var t := SwapQuotes(s);
      assert t[0] == SwapQuote(s[0]) && t[1..] == SwapQuotes(s[1..]);
      assert IsWhitespace(t[0]) <==> IsWhitespace(s[0]);
      if IsWhitespace(s[0]) {
        TokensSwapQuotes(s[1..]);
      } else {
        SwapWordQuoted(s, s[0]);
        var (w, rest) := Word(s);
        assert |rest| < |s|;
        TokensSwapQuotes(rest);
      }
    }
  }

  // ---------------------------------------------------------------------
  // Adjacent pieces join

  /** No whitespace and no quote: text that copies into a token as it is. */
  predicate Plain(s: string) {
    forall i :: 0 <= i < |s| ==> !IsWhitespace(s[i]) && !IsQuote(s[i])
  }

  lemma {:induction false} WordPlain(a: string, rest: string)
    requires Plain(a)
    ensures Word(a + rest) == (a + Word(rest).0, Word(rest).1)
    decreases |a|
  {
    if a != [] {
      assert !IsWhitespace(a[0]) && !IsQuote(a[0]);
      assert Plain(a[1..]) by {
        forall i | 0 <= i < |a| - 1 ensures !IsWhitespace(a[1..][i]) && !IsQuote(a[1..][i]) {
          assert a[1..][i] == a[i + 1];
        }
      }
      WordPlain(a[1..], rest);
      assert (a + rest)[0] == a[0];
      assert (a + rest)[1..] == a[1..] + rest;
      assert [a[0]] + (a[1..] + Word(rest).0) == a + Word(rest).0;
    } else {
      assert a + rest == rest;
      assert a + Word(rest).0 == Word(rest).0;
    }
  }

  /** Unquoted text, a quoted part and more unquoted text with no whitespace
      between them are one token. */
  lemma AdjacentPiecesJoin(a: string, q: char, body: string, c: string)
    requires Plain(a) && Plain(c) && IsQuote(q) && q !in body
    ensures Tokens(a + [q] + body + [q] + c) == [a + body + c]
  {
    var s := a + [q] + body + [q] + c;
    assert s == a + ([q] + body + [q] + c);
    WordPlain(a, [q] + body + [q] + c);
    QuotedPart(q, body, c);
    WordPlain(c, []);
    AppendNothing(c);
    assert s[0] == if a == [] then q else a[0];
    assert a + (body + c) == a + body + c;
  }

  // ---------------------------------------------------------------------
  // What the tokens keep of the input

  /** The input with unquoted whitespace and the delimiting quotes removed,
      outside any quote ... */
  function StripOut(s: string): (r: string)
    ensures |r| <= |s|
    decreases |s|
  {
    if s == [] then []
    else if IsWhitespace(s[0]) then StripOut(s[1..])
    else if IsQuote(s[0]) then StripIn(s[1..], s[0])
    else [s[0]] + StripOut(s[1..])
  }

  /** ... and inside a quote opened by `q`. */
  function StripIn(s: string, q: char): (r: string)
    ensures |r| <= |s|
    decreases |s|
  {
    if s == [] then []
    else if s[0] == q then StripOut(s[1..])
    else [s[0]] + StripIn(s[1..], q)
  }

  function Concat(ts: seq<string>): string
    decreases |ts|
  {
    if ts == [] then [] else ts[0] + Concat(ts[1..])
  }

  lemma {:induction false} WordStrip(s: string, q: char)
    ensures Word(s).0 + StripOut(Word(s).1) == StripOut(s)
    ensures Quoted(s, q).0 + StripOut(Quoted(s, q).1) == StripIn(s, q)
    decreases |s|
  {
    if s != [] {
      WordStrip(s[1..], s[0]);
      WordStrip(s[1..], q);
    }
  }

  /** The tokens, laid end to end, are the input without the delimiting
      quotes and without the whitespace outside quotes. */
  lemma {:induction false} TokensKeep(s: string)
    ensures Concat(Tokens(s)) == StripOut(s)
    decreases |s|
  {
    if s != [] {
      if IsWhitespace(s[0]) {
        TokensKeep(s[1..]);
      } else {
        var (w, rest) := Word(s);
        WordStrip(s, s[0]);
        TokensKeep(rest);
        assert Concat([w] + Tokens(rest)) == w + Concat(Tokens(rest));
      }
    }
  }

  /** Hence the tokens together are never longer than the input. */
  lemma TokensNoLonger(s: string)
    ensures |Concat(Tokens(s))| <= |s|
  {
    TokensKeep(s);
  }

  // ---------------------------------------------------------------------
  // Re-quoting

  /** Each token in single quotes, separated by single spaces. */
  function Requote(ts: seq<string>): string
    decreases |ts|
  {
    if ts == [] then []
    else if |ts| == 1 then ['\''] + ts[0] + ['\'']
    else ['\''] + ts[0] + ['\''] + [' '] + Requote(ts[1..])
  }

  /** Tokenizing the single-quoted rejoining of tokens that hold no single
      quote gives the same tokens. */
  lemma {:induction false} TokensRequote(ts: seq<string>)
    requires forall i :: 0 <= i < |ts| ==> '\'' !in ts[i]
    ensures Tokens(Requote(ts)) == ts
    decreases |ts|
  {
    if |ts| == 1 {
      QuotedToken('\'', ts[0]);
    } else if |ts| > 1 {
      var rest := [' '] + Requote(ts[1..]);
      var s := ['\''] + ts[0] + ['\''] + rest;
      assert Requote(ts) == s;
      QuotedPart('\'', ts[0], rest);
      AppendNothing(ts[0]);
      assert rest[1..] == Requote(ts[1..]);
      TokensRequote(ts[1..]);
      assert [ts[0]] + ts[1..] == ts;
    }
  }

  // ---------------------------------------------------------------------
  // The example of the doc comment

  /** A plain word, a space and a single-quoted argument are two tokens. */
  lemma WordThenQuoted(w: string, body: string)
    requires w != [] && Plain(w) && '\'' !in body
    ensures Tokens(w + [' '] + ['\''] + body + ['\'']) == [w, body]
  {
    var r := ['\''] + body + ['\''];
    var s := w + ([' '] + r);
    assert w + [' '] + ['\''] + body + ['\''] == s;
    WordPlain(w, [' '] + r);
    assert Word([' '] + r) == ([], [' '] + r);
    AppendNothing(w);
    assert Tokens(s) == [w] + Tokens([' '] + r);
    assert ([' '] + r)[1..] == r;
    QuotedToken('\'', body);
  }

  /** `echo 'hello world'` is `["echo", "hello world"]`
      (src/parser.rs:10-11). */
  lemma DocExample()
    ensures Tokens("echo 'hello world'") == ["echo", "hello world"]
  {
    assert "echo 'hello world'" == "echo" + [' '] + ['\''] + "hello world" + ['\''];
    WordThenQuoted("echo", "hello world");
  }
}
