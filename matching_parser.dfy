/**
  The parser for the matching model's streamed answer (`parseMatchingOutput`
  in lib/v3/prompts_parsers/matching.ts).

  The answer may be cut off anywhere. The parser takes the text after the first
  `<tellUser>`, and, while a `<functionCall>` is open but not yet closed, reads
  the called function's name and its argument object: comments are removed,
  keys are quoted, single quotes become double quotes, and a bare argument
  value that names exactly one declared constant is replaced by the constant's
  value before the object is handed to `JSON.parse`.

  Every regular expression of the source is written out as a scan whose
  branches follow the backtracking matcher's behaviour on that pattern.
  `JSON.parse` is a parameter: a partial function that fails with `None`.
*/
module MatchingParser {
  import opened Wrappers
  import opened Strings
  import opened MatchingPrompt

  /** The `variables` field: `null`, the empty object `{}`, or what `JSON.parse` returned. */
  datatype Args<J> = NullArgs | EmptyArgs | ParsedArgs(value: J)

  /** A non-null `MatchingParsedResponse`. */
  datatype Parsed<J> = Parsed(functionName: string, variables: Args<J>, tellUser: string)

  /** A declaration `const|let|var name = value` read from a variable's consts. */
  datatype Const = Const(name: string, value: string)

  const TellUserTag := "<tellUser>"
  const CallTag := "<functionCall>"
  const CloseTag := "</functionCall>"

  // ---------------------------------------------------------------- tellUser

  /** `text.match(/<tellUser>([\s\S]*)/)`: everything after the first tag, or "" without one. */
  function TellUser(text: string): (r: string)
    ensures !Contains(text, TellUserTag) ==> r == ""
    ensures Contains(text, TellUserTag) ==>
      var k := IndexOf(text, TellUserTag).value;
      k + |TellUserTag| + |r| == |text| && text[..k + |TellUserTag|] + r == text
  {
    match IndexOf(text, TellUserTag)
    case None => ""
    case Some(k) =>
      assert text[..k + |TellUserTag|] + text[k + |TellUserTag|..] == text;
      text[k + |TellUserTag|..]
  }

  /** A tag written into a text that had no `<` before it is found at that place. */
  lemma TagFirstAt(pre: string, tag: string, post: string)
    requires |tag| > 0 && tag[0] == '<' && '<' !in pre
    ensures IndexOf(pre + tag + post, tag) == Some(|pre|)
  {
    var s := pre + tag + post;
    assert s[|pre|..|pre| + |tag|] == tag;
    assert OccursAt(s, tag, |pre|);
    forall k: nat | k < |pre| ensures !OccursAt(s, tag, k) {
      assert s[k] == pre[k];
    }
  }

  /** The tell-user text is everything after the first tag. */
  lemma TellUserAfterTag(pre: string, t: string)
    requires '<' !in pre
    ensures TellUser(pre + TellUserTag + t) == t
  {
    TagFirstAt(pre, TellUserTag, t);
    var s := pre + TellUserTag + t;
    assert s[|pre| + |TellUserTag|..] == t;
  }

  // ---------------------------------------------------------------- the function text

  /**
    `.replace(/\/\/.+/gm, "")`: a `//` followed by at least one character is
    removed together with the rest of its line; a `//` at the end of a line stays.
  */
  function StripComments(s: string): (r: string)
    ensures |r| <= |s|
    decreases |s|
  {
    if s == [] then []
    else if |s| >= 3 && s[0] == '/' && s[1] == '/' && NotLineTerminator(s[2]) then
      StripComments(s[RunEnd(s, 2, NotLineTerminator)..])
    else [s[0]] + StripComments(s[1..])
  }

  lemma {:induction false} StripCommentsNoSlash(s: string)
    requires '/' !in s
    ensures StripComments(s) == s
  {
    if s != [] {
      StripCommentsNoSlash(s[1..]);
    }
  }

  /** A comment runs to the end of its line, and the line break stays. */
  lemma {:induction false} StripCommentLine(code: string, c: string, t: char, rest: string)
    requires '/' !in code && |c| > 0 && IsLineTerminator(t)
    requires forall k :: 0 <= k < |c| ==> NotLineTerminator(c[k])
    ensures StripComments(code + "//" + c + [t] + rest) == code + [t] + StripComments(rest)
  {
    var s := code + "//" + c + [t] + rest;
    if code == [] {
      assert s == "//" + c + [t] + rest;
      RunEndAt(s, 2, 2 + |c|, NotLineTerminator);
      assert s[2 + |c|..] == [t] + rest;
      assert StripComments([t] + rest) == [t] + StripComments(rest) by {
        assert ([t] + rest)[1..] == rest;
      }
    } else {
      assert s[1..] == code[1..] + "//" + c + [t] + rest;
      StripCommentLine(code[1..], c, t, rest);
    }
  }

  /**
    `text.split(/<functionCall>/)[1]` with its comments removed and
    `.split("\n").join("")` applied.
  */
  function FnText(text: string): (r: string)
    requires Contains(text, CallTag)
    ensures '\n' !in r
    ensures r == RemoveChar(StripComments(SecondPiece(text, CallTag)), '\n')
  {
    var stripped := StripComments(SecondPiece(text, CallTag));
    SplitJoinEmpty(stripped, '\n');
    Join(Split(stripped, '\n'), "")
  }

  // ---------------------------------------------------------------- the function name

  /**
    `/(\w+)\(/` from position `i`, where `i` starts a word run or lies outside
    one: the first whole word run immediately followed by `(`.
  */
  function NameFrom(s: string, i: nat): (r: Option<string>)
    requires i <= |s|
    ensures r.Some? ==> IsWord(r.value) && Contains(s, "(")
    decreases |s| - i
  {
    if i == |s| then None
    else if IsWordChar(s[i]) then
      var j := RunEnd(s, i, IsWordChar);
      if j < |s| && s[j] == '(' then
        assert OccursAt(s, "(", j) by {
          assert s[j..j + 1] == "(";
        }
        Some(s[i..j])
      else if j == |s| then None
      else NameFrom(s, j + 1)
    else NameFrom(s, i + 1)
  }

  /**
    The search from `i`, where `i` starts a word run or lies outside one,
    finds nothing exactly when no `(` after `i` follows a word character.
  */
  lemma {:induction false} NameFromNone(s: string, i: nat)
    requires i <= |s|
    requires i == 0 || !IsWordChar(s[i - 1])
    ensures NameFrom(s, i).None? <==> NoCallBetween(s, i, |s|)
    decreases |s| - i
  {
    if i < |s| {
      if IsWordChar(s[i]) {
        var j := RunEnd(s, i, IsWordChar);
        if j < |s| && s[j] == '(' {
          assert NameFrom(s, i).Some?;
          assert i < j && IsWordChar(s[j - 1]);
        } else {
          NoCallAcrossRun(s, i, j);
          if j < |s| {
            assert NameFrom(s, i) == NameFrom(s, j + 1);
            NameFromNone(s, j + 1);
          }
        }
      } else {
        assert NameFrom(s, i) == NameFrom(s, i + 1);
        NameFromNone(s, i + 1);
      }
    }
  }

  /** A name the search from `i` finds is the first whole word run after `i` followed by `(`. */
  lemma {:induction false} NameFromFirst(s: string, i: nat)
    requires i <= |s|
    requires i == 0 || !IsWordChar(s[i - 1])
    requires NameFrom(s, i).Some?
    ensures exists k :: i <= k && CallNameAt(s, NameFrom(s, i).value, k) && NoCallBetween(s, i, k)
    decreases |s| - i
  {
    var r := NameFrom(s, i);
    if IsWordChar(s[i]) {
      var j := RunEnd(s, i, IsWordChar);
      if j < |s| && s[j] == '(' {
        assert r == Some(s[i..j]);
        assert CallNameAt(s, s[i..j], i) && NoCallBetween(s, i, i);
      } else {
        NoCallAcrossRun(s, i, j);
        assert r == NameFrom(s, j + 1);
        NameFromFirst(s, j + 1);
        var k :| j + 1 <= k && CallNameAt(s, r.value, k) && NoCallBetween(s, j + 1, k);
        assert NoCallBetween(s, i, k);
      }
    } else {
      assert r == NameFrom(s, i + 1);
      NameFromFirst(s, i + 1);
      var k :| i + 1 <= k && CallNameAt(s, r.value, k) && NoCallBetween(s, i + 1, k);
      assert NoCallBetween(s, i, k);
    }
  }

  /**
    A word run `s[i..j]` not followed by `(` holds no `(` that follows a word
    character, so the search may resume after it.
  */
  lemma NoCallAcrossRun(s: string, i: nat, j: nat)
    requires i < j <= |s|
    requires forall k :: i <= k < j ==> IsWordChar(s[k])
    requires j == |s| || (!IsWordChar(s[j]) && s[j] != '(')
    ensures j == |s| ==> NoCallBetween(s, i, |s|)
    ensures j < |s| ==> forall m :: j + 1 <= m <= |s| ==> (NoCallBetween(s, i, m) <==> NoCallBetween(s, j + 1, m))
  {
  }

  /** `w(` is written at `k`, with `w` a whole word run. */
  predicate CallNameAt(s: string, w: string, k: nat) {
    IsWord(w) && k + |w| < |s| && s[k..k + |w|] == w && s[k + |w|] == '(' && (k == 0 || !IsWordChar(s[k - 1]))
  }

  /** No `(` between `i` and `k` follows a word character. */
  predicate NoCallBetween(s: string, i: nat, k: nat)
    requires k <= |s|
  {
    forall j :: i < j < k && s[j] == '(' ==> !IsWordChar(s[j - 1])
  }

  /**
    `fnText.match(/(\w+)\(/)`: the whole word run directly before the first `(`
    that follows a word character, and no name when there is no such `(`.
  */
  function FunctionName(s: string): (r: Option<string>)
    ensures r.Some? ==> exists k :: CallNameAt(s, r.value, k) && NoCallBetween(s, 0, k)
    ensures r.None? <==> forall k :: 0 < k < |s| && s[k] == '(' ==> !IsWordChar(s[k - 1])
  {
    NameFromNone(s, 0);
    if NameFrom(s, 0).Some? then NameFromFirst(s, 0); NameFrom(s, 0) else NameFrom(s, 0)
  }

  lemma FunctionNameOf(name: string, rest: string)
    requires IsWord(name)
    ensures FunctionName(name + "(" + rest) == Some(name)
  {
    var s := name + "(" + rest;
    RunEndAt(s, 0, |name|, IsWordChar);
    assert s[..|name|] == name;
  }

  // ---------------------------------------------------------------- the argument object

  /** The last index in `[a, b)` holding `c`. */
  function LastIn(s: string, c: char, a: nat, b: nat): (r: Option<nat>)
    requires a <= b <= |s|
    ensures r.Some? ==> a <= r.value < b && s[r.value] == c && forall k :: r.value < k < b ==> s[k] != c
    ensures r.None? ==> forall k :: a <= k < b ==> s[k] != c
    decreases b - a
  {
    if a == b then None
    else if s[b - 1] == c then Some(b - 1)
    else LastIn(s, c, a, b - 1)
  }

  /**
    `/\{.*}/` from position `i`: the first `{` that has a `}` later on its
    line, up to the last such `}` (`.` does not cross a line terminator).
  */
  function BraceObjectFrom(p: string, i: nat): (r: Option<string>)
    requires i <= |p|
    ensures r.Some? ==> (|r.value| >= 2 && r.value[0] == '{' && r.value[|r.value| - 1] == '}'
      && forall k :: 0 <= k < |r.value| ==> NotLineTerminator(r.value[k]))
    decreases |p| - i
  {
    if i == |p| then None
    else if p[i] == '{' then
      match LastIn(p, '}', i + 1, RunEnd(p, i + 1, NotLineTerminator))
      case Some(c) => Some(p[i..c + 1])
      case None => BraceObjectFrom(p, i + 1)
    else BraceObjectFrom(p, i + 1)
  }

  /**
    The search from `i` finds the first `{` closed on its line, and none
    exactly when no `{` from `i` on is.
  */
  lemma {:induction false} BraceObjectFromFirst(p: string, i: nat)
    requires i <= |p|
    ensures BraceObjectFrom(p, i).Some? ==> exists a, c ::
      i <= a < c < |p| && ObjectAt(p, a, c) && BraceObjectFrom(p, i).value == p[a..c + 1] && NoObjectBetween(p, i, a)
    ensures BraceObjectFrom(p, i).None? <==> NoObjectBetween(p, i, |p|)
    decreases |p| - i
  {
    if i < |p| {
      var r := BraceObjectFrom(p, i);
      var e := RunEnd(p, i + 1, NotLineTerminator);
      if p[i] == '{' && LastIn(p, '}', i + 1, e).Some? {
        var c := LastIn(p, '}', i + 1, e).value;
        assert r == Some(p[i..c + 1]);
        assert ObjectAt(p, i, c) && ClosedOnLine(p, i) && NoObjectBetween(p, i, i);
      } else {
        assert r == BraceObjectFrom(p, i + 1);
        assert !ClosedOnLine(p, i);
        BraceObjectFromFirst(p, i + 1);
        if r.Some? {
          var a, c :| i + 1 <= a < c < |p| && ObjectAt(p, a, c) && r.value == p[a..c + 1] && NoObjectBetween(p, i + 1, a);
          NoObjectExtend(p, i, a);
        }
        NoObjectExtend(p, i, |p|);
      }
    }
  }

  /** A `{` at `i` not closed on its line extends a range holding no object by one. */
  lemma NoObjectExtend(p: string, i: nat, k: nat)
    requires i < k <= |p| && !ClosedOnLine(p, i)
    ensures NoObjectBetween(p, i, k) <==> NoObjectBetween(p, i + 1, k)
  {
    if NoObjectBetween(p, i + 1, k) {
      forall a | i <= a < k ensures !ClosedOnLine(p, a) {
        if a > i {
          assert i + 1 <= a < k;
        }
      }
    }
  }

  /** No `{` in `[i, k)` has a `}` later on its line. */
  predicate NoObjectBetween(p: string, i: nat, k: nat)
    requires k <= |p|
  {
    forall a :: i <= a < k ==> !ClosedOnLine(p, a)
  }

  /** The `{` at `a` has a `}` later on its line. */
  predicate ClosedOnLine(p: string, a: nat)
    requires a < |p|
  {
    p[a] == '{' && exists b :: a < b < RunEnd(p, a + 1, NotLineTerminator) && p[b] == '}'
  }

  /** `{` at `a` and the last `}` of its line at `c`. */
  predicate ObjectAt(p: string, a: nat, c: nat)
    requires a < |p|
  {
    var e := RunEnd(p, a + 1, NotLineTerminator);
    a < c < e && p[a] == '{' && p[c] == '}' && forall b :: c < b < e ==> p[b] != '}'
  }

  /**
    `/\{.*}/` on the text after `(`: the first `{` that has a `}` later on its
    line, up to the last `}` of that line; none exactly when no `{` has one.
  */
  function BraceObject(p: string): (r: Option<string>)
    ensures r.Some? ==> (|r.value| >= 2 && r.value[0] == '{' && r.value[|r.value| - 1] == '}'
      && forall k :: 0 <= k < |r.value| ==> NotLineTerminator(r.value[k]))
    ensures r.Some? ==> exists a, c :: (0 <= a < c < |p| && ObjectAt(p, a, c) && r.value == p[a..c + 1]
      && forall a' :: 0 <= a' < a ==> !ClosedOnLine(p, a'))
    ensures r.None? <==> forall a :: 0 <= a < |p| ==> !ClosedOnLine(p, a)
  {
    BraceObjectFromFirst(p, 0);
    BraceObjectFrom(p, 0)
  }

  /** An object on one line, followed by no further `}`, is taken whole. */
  lemma BraceObjectOf(body: string, rest: string)
    requires forall k :: 0 <= k < |body| ==> NotLineTerminator(body[k])
    requires '}' !in rest
    ensures BraceObject("{" + body + "}" + rest) == Some("{" + body + "}")
  {
    var p := "{" + body + "}" + rest;
    var e := RunEnd(p, 1, NotLineTerminator);
    var c := |body| + 1;
    assert p[c] == '}' && c < e;
    forall k | c < k < e ensures p[k] != '}' {
      assert p[k] == rest[k - c - 1];
    }
    LastInIs(p, '}', 1, e, c);
    BraceObjectAtStart(p, c);
    assert p[..c + 1] == "{" + body + "}";
  }

  lemma {:induction false} LastInIs(s: string, ch: char, a: nat, b: nat, c: nat)
    requires a <= c < b <= |s| && s[c] == ch && forall k :: c < k < b ==> s[k] != ch
    ensures LastIn(s, ch, a, b) == Some(c)
    decreases b
  {
    if b - 1 != c {
      LastInIs(s, ch, a, b - 1, c);
    }
  }

  /** An opening brace at the start with a `}` later on its line: the object starts there. */
  lemma BraceObjectAtStart(p: string, c: nat)
    requires |p| > 0 && p[0] == '{' && LastIn(p, '}', 1, RunEnd(p, 1, NotLineTerminator)) == Some(c)
    ensures BraceObject(p) == Some(p[..c + 1])
  {
  }

  // ---------------------------------------------------------------- keys and quotes

  /**
    `.replace(/(\w+\d?):/g, '"$1":')`: every whole word run directly followed
    by `:` is put in double quotes.
  */
  function QuoteKeys(s: string): (r: string)
    ensures ':' !in s ==> r == s
    decreases |s|
  {
    if s == [] then []
    else if IsWordChar(s[0]) then
      var j := RunEnd(s, 0, IsWordChar);
      if j < |s| && s[j] == ':' then "\"" + s[..j] + "\":" + QuoteKeys(s[j + 1..])
      else
        assert s == s[..j] + s[j..];
        s[..j] + QuoteKeys(s[j..])
    else [s[0]] + QuoteKeys(s[1..])
  }

  /** A quoted key loses exactly the quotes that `QuoteKeys` put around it. */
  lemma QuotedKeyLosesQuotes(w: string, t: string, u: string)
    requires '"' !in w
    requires RemoveChar(t, '"') == RemoveChar(u, '"')
    ensures RemoveChar("\"" + w + "\":" + t, '"') == RemoveChar(w + ":" + u, '"')
  {
    RemoveCharAppend("\"" + w + "\":", t, '"');
    RemoveCharAppend("\"" + w, "\":", '"');
    RemoveCharAppend("\"", w, '"');
    RemoveCharAppend(w + ":", u, '"');
    RemoveCharAppend(w, ":", '"');
    RemoveAbsentChar(w, '"');
    assert RemoveChar("\"", '"') == [];
    assert RemoveChar("\":", '"') == ":";
    assert RemoveChar(":", '"') == ":";
    assert [] + w == w;
  }

  lemma KeptPrefixLosesQuotes(w: string, t: string, u: string)
    requires RemoveChar(t, '"') == RemoveChar(u, '"')
    ensures RemoveChar(w + t, '"') == RemoveChar(w + u, '"')
  {
    RemoveCharAppend(w, t, '"');
    RemoveCharAppend(w, u, '"');
  }

  /** Quoting keys only adds double quotes: without them, the text is unchanged. */
  lemma {:induction false} QuoteKeysAddsOnlyQuotes(s: string)
    ensures RemoveChar(QuoteKeys(s), '"') == RemoveChar(s, '"')
    decreases |s|
  {
    if s != [] {
      if IsWordChar(s[0]) {
        var j := RunEnd(s, 0, IsWordChar);
        if j < |s| && s[j] == ':' {
          QuoteKeysAddsOnlyQuotes(s[j + 1..]);
          QuotedKeyStep(s, j);
        } else {
          QuoteKeysAddsOnlyQuotes(s[j..]);
          KeptWordStep(s, j);
        }
      } else {
        QuoteKeysAddsOnlyQuotes(s[1..]);
        KeptPrefixLosesQuotes([s[0]], QuoteKeys(s[1..]), s[1..]);
        assert s == [s[0]] + s[1..];
      }
    }
  }

  lemma QuotedKeyStep(s: string, j: nat)
    requires 0 < j < |s| && IsWordChar(s[0]) && j == RunEnd(s, 0, IsWordChar) && s[j] == ':'
    requires RemoveChar(QuoteKeys(s[j + 1..]), '"') == RemoveChar(s[j + 1..], '"')
    ensures RemoveChar(QuoteKeys(s), '"') == RemoveChar(s, '"')
  {
    var key, rest := s[..j], s[j + 1..];
    forall k | 0 <= k < |key| ensures key[k] != '"' {
      assert IsWordChar(s[k]);
    }
    QuotedKeyLosesQuotes(key, QuoteKeys(rest), rest);
    assert QuoteKeys(s) == "\"" + key + "\":" + QuoteKeys(rest);
    SplitAt(s, j);
    assert [s[j]] == ":";
  }

  lemma KeptWordStep(s: string, j: nat)
    requires 0 < j <= |s| && IsWordChar(s[0]) && j == RunEnd(s, 0, IsWordChar) && !(j < |s| && s[j] == ':')
    requires RemoveChar(QuoteKeys(s[j..]), '"') == RemoveChar(s[j..], '"')
    ensures RemoveChar(QuoteKeys(s), '"') == RemoveChar(s, '"')
  {
    var key, rest := s[..j], s[j..];
    KeptPrefixLosesQuotes(key, QuoteKeys(rest), rest);
    assert QuoteKeys(s) == key + QuoteKeys(rest);
    SplitInTwo(s, j);
  }

  // ---------------------------------------------------------------- const declarations

  /** The position after the keyword and its space when `const `, `let ` or `var ` starts at `i`. */
  function KeywordEnd(s: string, i: nat): (r: Option<nat>)
    ensures r.Some? ==> i < r.value <= |s|
  {
    if OccursAt(s, "const ", i) then Some(i + 6)
    else if OccursAt(s, "let ", i) then Some(i + 4)
    else if OccursAt(s, "var ", i) then Some(i + 4)
    else None
  }

  /** `(?::\s*\w+\s*)` after the colon: the position following the type name and its spaces. */
  function TypeEnd(s: string, i: nat): (r: Option<nat>)
    requires i <= |s|
    ensures r.Some? ==> i < r.value <= |s|
  {
    var b := RunEnd(s, i, IsWhitespace);
    var c := RunEnd(s, b, IsWordChar);
    if c == b then None else Some(RunEnd(s, c, IsWhitespace))
  }

  /** Where `=` must stand after the name: past the spaces and an optional `: Type` annotation. */
  function AssignAt(s: string, n1: nat): (r: Option<nat>)
    requires n1 <= |s|
    ensures r.Some? ==> n1 <= r.value <= |s|
  {
    var a := RunEnd(s, n1, IsWhitespace);
    if a < |s| && s[a] == ':' then TypeEnd(s, a + 1) else Some(a)
  }

  predicate SingleLine(s: string) {
    forall k :: 0 <= k < |s| ==> NotLineTerminator(s[k])
  }

  /**
    `=\s*(.*?)(;$|$)` once the spaces after `=` end at `v`: the rest of the
    text, without one final `;`, provided it holds no line terminator.
  */
  function ValueFrom(s: string, v: nat): (r: Option<string>)
    requires v <= |s|
    ensures r.Some? ==> SingleLine(r.value)
  {
    if RunEnd(s, v, NotLineTerminator) < |s| then None
    else Some(if v < |s| && s[|s| - 1] == ';' then s[v..|s| - 1] else s[v..])
  }

  /**
    `/(?:const|let|var) (\w+)\s*(?::\s*\w+\s*)?=\s*(.*?)(;$|$)/` tried at
    position `i` only. The name is the whole word run after the keyword; the
    value is the rest of the text after `=` and its spaces, without one final
    `;`, and it must not contain a line terminator.
  */
  function DeclarationAt(s: string, i: nat): (r: Option<Const>)
    requires i <= |s|
    ensures r.Some? ==> IsWord(r.value.name) && SingleLine(r.value.value)
  {
    match KeywordEnd(s, i)
    case None => None
    case Some(n0) => DeclarationAfterKeyword(s, n0)
  }

  /** The rest of the pattern, once the keyword and its space end at `n0`. */
  function DeclarationAfterKeyword(s: string, n0: nat): (r: Option<Const>)
    requires n0 <= |s|
    ensures r.Some? ==> IsWord(r.value.name) && SingleLine(r.value.value)
  {
    var n1 := RunEnd(s, n0, IsWordChar);
    match AssignAt(s, n1)
    case None => None
    case Some(eq) =>
      if n1 == n0 || eq >= |s| || s[eq] != '=' then None
      else
        match ValueFrom(s, RunEnd(s, eq + 1, IsWhitespace))
        case None => None
        case Some(value) => Some(Const(s[n0..n1], value))
  }

  /**
    The regular expression is not anchored: of the positions before `n`, the
    leftmost one where a declaration starts wins.
  */
  function DeclarationBefore(s: string, n: nat): (r: Option<Const>)
    requires n <= |s| + 1
    ensures r.Some? ==> IsWord(r.value.name) && SingleLine(r.value.value)
  {
    if n == 0 then None
    else
      match DeclarationBefore(s, n - 1)
      case Some(c) => Some(c)
      case None => DeclarationAt(s, n - 1)
  }

  /** Without a declaration at any position before `n`, nothing is found. */
  lemma {:induction false} DeclarationBeforeNone(s: string, n: nat)
    requires n <= |s| + 1
    requires forall j :: 0 <= j < n ==> DeclarationAt(s, j).None?
    ensures DeclarationBefore(s, n).None?
  {
    if n > 0 {
      DeclarationBeforeNone(s, n - 1);
    }
  }

  /** The declaration found is the one at the leftmost position where one starts. */
  lemma {:induction false} DeclarationBeforeLeftmost(s: string, n: nat, k: nat)
    requires k < n <= |s| + 1 && DeclarationAt(s, k).Some?
    requires forall j :: 0 <= j < k ==> DeclarationAt(s, j).None?
    ensures DeclarationBefore(s, n) == DeclarationAt(s, k)
  {
    if n - 1 == k {
      DeclarationBeforeNone(s, k);
    } else {
      DeclarationBeforeLeftmost(s, n - 1, k);
    }
  }

  /** `c.match(...)`, with `null` for a malformed declaration. */
  function ParseConst(s: string): (r: Option<Const>)
    ensures r.Some? ==> IsWord(r.value.name) && SingleLine(r.value.value)
  {
    DeclarationBefore(s, |s| + 1)
  }

  /** `ParseConst` finds the leftmost declaration, and none when no position starts one. */
  lemma ParseConstLeftmost(s: string, k: nat)
    requires k <= |s| && DeclarationAt(s, k).Some?
    requires forall j :: 0 <= j < k ==> DeclarationAt(s, j).None?
    ensures ParseConst(s) == DeclarationAt(s, k)
  {
    DeclarationBeforeLeftmost(s, |s| + 1, k);
  }

  lemma ConstKeyword(s: string)
    requires |s| >= 6 && s[..6] == "const "
    ensures KeywordEnd(s, 0) == Some(6)
  {
    assert OccursAt(s, "const ", 0);
  }

  /**
    A text that starts with `const `, a name, an assignment and a one-line
    value ending in `;` declares that name with that value.
  */
  lemma DeclarationShape(s: string, name: string, eq: nat, value: string)
    requires var n1 := 6 + |name|;
      && n1 < |s| && s[..6] == "const " && s[6..n1] == name && IsWord(name) && !IsWordChar(s[n1])
      && AssignAt(s, n1) == Some(eq)
    requires eq + 2 < |s| && s[eq] == '=' && s[eq + 1] == ' ' && !IsWhitespace(s[eq + 2])
    requires |s| == eq + 2 + |value| + 1 && s[eq + 2..|s| - 1] == value && SingleLine(value) && s[|s| - 1] == ';'
    ensures ParseConst(s) == Some(Const(name, value))
  {
    var n1 := 6 + |name|;
    ConstKeyword(s);
    NameRun(s, name);
    OneSpace(s, eq + 1);
    ValueLine(s, eq + 2, value);
    DeclarationAtZero(s, 6, n1, eq, eq + 2, value);
    ParseConstLeftmost(s, 0);
  }

  /** The name after `const ` is the whole word run. */
  lemma NameRun(s: string, name: string)
    requires 6 + |name| < |s| && s[6..6 + |name|] == name && IsWord(name) && !IsWordChar(s[6 + |name|])
    ensures RunEnd(s, 6, IsWordChar) == 6 + |name|
  {
    forall k | 6 <= k < 6 + |name| ensures IsWordChar(s[k]) {
      assert s[k] == name[k - 6];
    }
    RunEndAt(s, 6, 6 + |name|, IsWordChar);
  }

  /** A single space before a non-space is the whole run of spaces. */
  lemma OneSpace(s: string, i: nat)
    requires i + 1 < |s| && s[i] == ' ' && !IsWhitespace(s[i + 1])
    ensures RunEnd(s, i, IsWhitespace) == i + 1
  {
    assert IsWhitespace(s[i]);
    RunEndAt(s, i, i + 1, IsWhitespace);
  }

  /** A one-line value followed by the final `;` is read without the `;`. */
  lemma ValueLine(s: string, v: nat, value: string)
    requires v < |s| && |s| == v + |value| + 1 && s[v..|s| - 1] == value && SingleLine(value) && s[|s| - 1] == ';'
    ensures ValueFrom(s, v) == Some(value)
  {
    forall k | v <= k < |s| ensures NotLineTerminator(s[k]) {
      if k < |s| - 1 {
        assert s[k] == value[k - v];
      }
    }
    RunEndAt(s, v, |s|, NotLineTerminator);
  }

  lemma DeclarationAtZero(s: string, n0: nat, n1: nat, eq: nat, v: nat, value: string)
    requires KeywordEnd(s, 0) == Some(n0)
    requires RunEnd(s, n0, IsWordChar) == n1 && n0 < n1
    requires AssignAt(s, n1) == Some(eq) && eq < |s| && s[eq] == '='
    requires RunEnd(s, eq + 1, IsWhitespace) == v && ValueFrom(s, v) == Some(value)
    ensures DeclarationAt(s, 0) == Some(Const(s[n0..n1], value))
  {
    AfterKeyword(s, n0, n1, eq, v, value);
  }

  lemma AfterKeyword(s: string, n0: nat, n1: nat, eq: nat, v: nat, value: string)
    requires n0 <= |s|
    requires RunEnd(s, n0, IsWordChar) == n1 && n0 < n1
    requires AssignAt(s, n1) == Some(eq) && eq < |s| && s[eq] == '='
    requires RunEnd(s, eq + 1, IsWhitespace) == v && ValueFrom(s, v) == Some(value)
    ensures DeclarationAfterKeyword(s, n0) == Some(Const(s[n0..n1], value))
  {
  }

  /** `: Type =` after the name. */
  lemma TypedAssign(s: string, n1: nat, c: nat)
    requires n1 + 2 < c && c + 1 < |s|
    requires s[n1] == ':' && s[n1 + 1] == ' ' && s[c] == ' ' && s[c + 1] == '='
    requires forall k :: n1 + 2 <= k < c ==> IsWordChar(s[k])
    ensures AssignAt(s, n1) == Some(c + 1)
  {
    RunEndAt(s, n1, n1, IsWhitespace);
    RunEndAt(s, n1 + 1, n1 + 2, IsWhitespace);
    RunEndAt(s, n1 + 2, c, IsWordChar);
    RunEndAt(s, c, c + 1, IsWhitespace);
  }

  lemma SliceIs(s: string, a: nat, w: string)
    requires a + |w| <= |s| && forall k :: a <= k < a + |w| ==> s[k] == w[k - a]
    ensures s[a..a + |w|] == w
  {
  }

  /** A plain declaration reads back as the name and value written into it. */
  lemma ParseDeclaration(name: string, value: string)
    requires IsWord(name) && SingleLine(value)
    requires value == [] || !IsWhitespace(value[0])
    ensures ParseConst("const " + name + " = " + value + ";") == Some(Const(name, value))
  {
    var s := "const " + name + " = " + value + ";";
    var n1 := 6 + |name|;
    assert s[..6] == "const ";
    assert s[6..n1] == name;
    assert s[n1] == ' ' && s[n1 + 1] == '=' && s[n1 + 2] == ' ' && s[|s| - 1] == ';';
    assert s[n1 + 3] == if value == [] then ';' else value[0];
    assert s[n1 + 3..|s| - 1] == value;
    RunEndAt(s, n1, n1 + 1, IsWhitespace);
    DeclarationShape(s, name, n1 + 1, value);
  }

  /** `const name: Type = value;`, described character by character. */
  lemma TypedDeclarationShape(s: string, name: string, typeName: string, value: string)
    requires IsWord(name) && IsWord(typeName) && SingleLine(value)
    requires var n1 := 6 + |name|; var c := n1 + 2 + |typeName|;
      && |s| == c + 3 + |value| + 1 && s[..6] == "const " && s[6..n1] == name
      && s[n1] == ':' && s[n1 + 1] == ' ' && s[n1 + 2..c] == typeName
      && s[c] == ' ' && s[c + 1] == '=' && s[c + 2] == ' '
      && s[c + 3..|s| - 1] == value && s[|s| - 1] == ';'
    requires !IsWhitespace(s[6 + |name| + 2 + |typeName| + 3])
    ensures ParseConst(s) == Some(Const(name, value))
  {
    var n1 := 6 + |name|;
    var c := n1 + 2 + |typeName|;
    forall k | n1 + 2 <= k < c ensures IsWordChar(s[k]) {
      assert s[k] == s[n1 + 2..c][k - n1 - 2];
    }
    TypedAssign(s, n1, c);
    DeclarationShape(s, name, c + 1, value);
  }

  /** A declaration with a type annotation reads back the same way. */
  lemma ParseTypedDeclaration(name: string, typeName: string, value: string)
    requires IsWord(name) && IsWord(typeName) && SingleLine(value)
    requires value == [] || !IsWhitespace(value[0])
    ensures ParseConst("const " + name + ": " + typeName + " = " + value + ";") == Some(Const(name, value))
  {
    var s := "const " + name + ": " + typeName + " = " + value + ";";
    var n1 := 6 + |name|;
    var c := n1 + 2 + |typeName|;
    assert s[..6] == "const ";
    assert s[6..n1] == name;
    assert s[n1] == ':' && s[n1 + 1] == ' ';
    assert s[n1 + 2..c] == typeName;
    assert s[c] == ' ' && s[c + 1] == '=' && s[c + 2] == ' ' && s[|s| - 1] == ';';
    assert s[c + 3] == if value == [] then ';' else value[0];
    assert s[c + 3..|s| - 1] == value;
    TypedDeclarationShape(s, name, typeName, value);
  }

  /** The date constant added for `fromDate` is itself a well-formed declaration of `today`. */
  lemma TodayConstParses(today: string)
    requires SingleLine(today)
    ensures ParseConst(TodayConst(today)) == Some(Const("today", "\"" + today + "\""))
  {
    assert IsWord("today") && IsWord("ISODate");
    assert TodayConst(today) == "const " + "today" + ": " + "ISODate" + " = " + ("\"" + today + "\"") + ";";
    ParseTypedDeclaration("today", "ISODate", "\"" + today + "\"");
  }

  /** `.filter(Boolean)` on the parsed declarations: the malformed ones are dropped. */
  function Present(cs: seq<Option<Const>>): (r: seq<Const>)
    ensures forall k :: 0 <= k < |r| ==> Some(r[k]) in cs
    ensures forall k :: 0 <= k < |cs| && cs[k].Some? ==> cs[k].value in r
  {
    if cs == [] then []
    else (if cs[0].Some? then [cs[0].value] else []) + Present(cs[1..])
  }

  /** Each declaration is kept as many times as it was parsed. */
  lemma {:induction false} PresentCounts(cs: seq<Option<Const>>)
    ensures forall c :: multiset(Present(cs))[c] == multiset(cs)[Some(c)]
  {
    if cs != [] {
      PresentCounts(cs[1..]);
      assert cs == [cs[0]] + cs[1..];
    }
  }

  /** `v.consts.map(...)`: each declaration parsed, `null` for a malformed one. */
  function ParseEach(cs: seq<string>): (r: seq<Option<Const>>)
    ensures |r| == |cs| && forall k :: 0 <= k < |cs| ==> r[k] == ParseConst(cs[k])
  {
    if cs == [] then [] else [ParseConst(cs[0])] + ParseEach(cs[1..])
  }

  /** `variables.map(...).flat()`: the parsed declarations of every variable, in order. */
  function ParseAll(vars: seq<ApprovalVariable>): seq<Option<Const>> {
    if vars == [] then [] else ParseEach(vars[0].consts) + ParseAll(vars[1..])
  }

  /** The declarations of every variable, parsed, flattened, malformed ones dropped. */
  function AllConsts(vars: seq<ApprovalVariable>): seq<Const> {
    Present(ParseAll(vars))
  }

  /** `.filter((c) => c.name === val)`. */
  function Named(consts: seq<Const>, name: string): (r: seq<Const>)
    ensures forall k :: 0 <= k < |r| ==> r[k].name == name && r[k] in consts
    ensures forall k :: 0 <= k < |consts| && consts[k].name == name ==> consts[k] in r
  {
    if consts == [] then []
    else (if consts[0].name == name then [consts[0]] else []) + Named(consts[1..], name)
  }

  /**
    Every constant of that name is kept as often as it occurs, so two variables
    carrying the same declaration give two matches and no substitution.
  */
  lemma {:induction false} NamedCounts(consts: seq<Const>, name: string)
    ensures forall c :: multiset(Named(consts, name))[c] == if c.name == name then multiset(consts)[c] else 0
  {
    if consts != [] {
      NamedCounts(consts[1..], name);
      assert consts == [consts[0]] + consts[1..];
    }
  }

  // ---------------------------------------------------------------- substituting constants

  /** A match of `/"\w+?":\s*([^"]+?)[},]/`: the captured value is `[valStart, valEnd)`. */
  datatype ValueMatch = ValueMatch(valStart: nat, valEnd: nat, end: nat)

  /** The characters at which the lazy `[^"]+?` stops growing: the closers `}` `,` and a quote. */
  predicate NotStop(c: char) {
    c != '}' && c != ',' && c != '"'
  }

  /**
    The value pattern tried at position `i`. The lazy `\w+?` can only stop at the
    end of the word run, which must be followed by `":`. With `\s*` taking every
    space, the lazy value grows up to the first `}`, `,` or `"` and succeeds at a
    closer; otherwise `\s*` gives back its last space, which succeeds as a
    one-character value exactly when a closer follows it.
  */
  function ValueMatchAt(s: string, i: nat): (r: Option<ValueMatch>)
    requires i <= |s|
    ensures r.Some? ==> var v := r.value;
      && i + 3 < v.valStart < v.valEnd < v.end == v.valEnd + 1 <= |s|
      && s[i] == '"' && (s[v.valEnd] == '}' || s[v.valEnd] == ',')
      && forall k :: v.valStart <= k < v.valEnd ==> s[k] != '"'
  {
    if i < |s| && s[i] == '"' then
      var k := RunEnd(s, i + 1, IsWordChar);
      if k > i + 1 && k + 1 < |s| && s[k] == '"' && s[k + 1] == ':' then
        var p := RunEnd(s, k + 2, IsWhitespace);
        match LazyValue(s, p)
        case Some(q) => Some(ValueMatch(p, q, q + 1))
        case None =>
          if k + 2 < p < |s| && (s[p] == '}' || s[p] == ',') then Some(ValueMatch(p - 1, p, p + 1))
          else None
      else None
    else None
  }

  /** `([^"]+?)[},]` from `p`: where the value ends, at the first closer, unless a quote or the end comes first. */
  function LazyValue(s: string, p: nat): (r: Option<nat>)
    requires p <= |s|
    ensures r.Some? ==> p < r.value < |s| && (s[r.value] == '}' || s[r.value] == ',')
    ensures r.Some? ==> forall k :: p <= k < r.value ==> s[k] != '"'
  {
    if p < |s| && s[p] != '"' then
      var q := RunEnd(s, p + 1, NotStop);
      if q < |s| && s[q] != '"' then Some(q) else None
    else None
  }

  /**
    The replacement callback on the match `s[i..v.end]` with captured value
    `val`: unless exactly one declared constant is named `val`, the match is
    kept. As written, `m.replace(val, value)` replaces the first occurrence of
    `val` anywhere in the match, which may lie inside the key; the intended
    behaviour replaces the captured value itself.
  */
  function ReplaceMatch(s: string, i: nat, v: ValueMatch, consts: seq<Const>, asWritten: bool): (r: string)
    requires i < v.valStart < v.valEnd < v.end <= |s|
    ensures |Named(consts, s[v.valStart..v.valEnd])| != 1 ==> r == s[i..v.end]
    ensures !asWritten && |Named(consts, s[v.valStart..v.valEnd])| == 1 ==>
      r == s[i..v.valStart] + Named(consts, s[v.valStart..v.valEnd])[0].value + s[v.valEnd..v.end]
  {
    var val := s[v.valStart..v.valEnd];
    var named := Named(consts, val);
    if |named| != 1 then s[i..v.end]
    else if asWritten then ReplaceFirst(s[i..v.end], val, named[0].value)
    else s[i..v.valStart] + named[0].value + s[v.valEnd..v.end]
  }

  /** `.replace(/"\w+?":\s*([^"]+?)[},]/g, callback)` on `s[i..]`. */
  function SubstituteFrom(s: string, i: nat, consts: seq<Const>, asWritten: bool): (r: string)
    requires i <= |s|
    ensures NoUniqueName(consts) ==> r == s[i..]
    decreases |s| - i
  {
    if i == |s| then []
    else
      match ValueMatchAt(s, i)
      case None =>
        var r := [s[i]] + SubstituteFrom(s, i + 1, consts, asWritten);
        assert NoUniqueName(consts) ==> r == s[i..] by {
          SplitAt(s[i..], 0);
        }
        r
      case Some(v) =>
        var r := ReplaceMatch(s, i, v, consts, asWritten) + SubstituteFrom(s, v.end, consts, asWritten);
        assert NoUniqueName(consts) ==> r == s[i..] by {
          SplitSlice(s, i, v.end);
        }
        r
  }

  /** No name is shared by exactly one constant, so no callback replaces anything. */
  ghost predicate NoUniqueName(consts: seq<Const>) {
    forall name :: |Named(consts, name)| != 1
  }

  /** The whole substitution, with the callback as written or as intended. */
  function SubstituteConsts(s: string, consts: seq<Const>, asWritten: bool): (r: string)
    ensures NoUniqueName(consts) ==> r == s
    ensures consts == [] ==> r == s
  {
    SubstituteFrom(s, 0, consts, asWritten)
  }

  /** The argument object made parseable: keys quoted, `'` turned into `"`, constants substituted. */
  function ArgsString(obj: string, consts: seq<Const>, asWritten: bool): (r: string)
    ensures consts == [] && '\'' !in obj ==> r == QuoteKeys(obj)
  {
    var quoted := QuoteKeys(obj);
    QuoteKeysAddsNoApostrophe(obj);
    ReplaceAbsent(quoted, '\'', '"');
    SubstituteConsts(ReplaceAll(quoted, '\'', '"'), consts, asWritten)
  }

  /** Quoting keys adds no apostrophe. */
  lemma QuoteKeysAddsNoApostrophe(s: string)
    ensures '\'' in QuoteKeys(s) <==> '\'' in s
  {
    QuoteKeysAddsOnlyQuotes(s);
    RemoveCharKeeps(QuoteKeys(s), '\'', '"');
    RemoveCharKeeps(s, '\'', '"');
  }

  /** `"key": name` followed by a closer, both words, is one match whose value is `name`. */
  lemma KeyValueMatch(s: string, i: nat, a: nat, b: nat)
    requires i + 1 < a && a + 3 < b < |s|
    requires s[i] == '"' && s[a] == '"' && s[a + 1] == ':' && s[a + 2] == ' ' && (s[b] == '}' || s[b] == ',')
    requires forall k :: i + 1 <= k < a ==> IsWordChar(s[k])
    requires forall k :: a + 3 <= k < b ==> IsWordChar(s[k])
    ensures ValueMatchAt(s, i) == Some(ValueMatch(a + 3, b, b + 1))
  {
    RunEndAt(s, i + 1, a, IsWordChar);
    assert IsWordChar(s[a + 3]);
    RunEndAt(s, a + 2, a + 3, IsWhitespace);
    RunEndAt(s, a + 4, b, NotStop);
    ValueMatchGreedy(s, i, a, a + 3, b);
  }

  /** The match when the value after all the spaces reaches a closer. */
  lemma ValueMatchGreedy(s: string, i: nat, k: nat, p: nat, q: nat)
    requires i + 1 < k && k + 1 < |s| && s[i] == '"' && s[k] == '"' && s[k + 1] == ':'
    requires RunEnd(s, i + 1, IsWordChar) == k && RunEnd(s, k + 2, IsWhitespace) == p
    requires p < q < |s| && s[p] != '"' && RunEnd(s, p + 1, NotStop) == q && s[q] != '"'
    ensures ValueMatchAt(s, i) == Some(ValueMatch(p, q, q + 1))
  {
    assert LazyValue(s, p) == Some(q);
  }

  /** `{"key": name}`, described character by character, is a brace, one match, and nothing after it. */
  lemma PairSubstitution(s: string, key: string, name: string, consts: seq<Const>, asWritten: bool, a: nat, b: nat)
    requires IsWord(key) && IsWord(name)
    requires a == 2 + |key| && b == a + 3 + |name|
    requires |s| == b + 1 && s[0] == '{' && s[1] == '"' && s[2..a] == key && s[a] == '"' && s[a + 1] == ':'
      && s[a + 2] == ' ' && s[a + 3..b] == name && s[b] == '}'
    ensures SubstituteConsts(s, consts, asWritten) == [s[0]] + ReplaceMatch(s, 1, ValueMatch(a + 3, b, |s|), consts, asWritten)
  {
    var v := ValueMatch(a + 3, b, |s|);
    forall k | 2 <= k < a ensures IsWordChar(s[k]) {
      assert s[k] == s[2..a][k - 2];
    }
    forall k | a + 3 <= k < b ensures IsWordChar(s[k]) {
      assert s[k] == s[a + 3..b][k - a - 3];
    }
    KeyValueMatch(s, 1, a, b);
    assert ValueMatchAt(s, 0).None?;
    assert SubstituteFrom(s, 1, consts, asWritten) == ReplaceMatch(s, 1, v, consts, asWritten) + [];
    assert ReplaceMatch(s, 1, v, consts, asWritten) + [] == ReplaceMatch(s, 1, v, consts, asWritten);
  }

  /** `{"key": name}`, described character by character, with the intended callback. */
  lemma IntendedPair(s: string, key: string, name: string, value: string, consts: seq<Const>, a: nat, b: nat)
    requires IsWord(key) && IsWord(name) && Named(consts, name) == [Const(name, value)]
    requires a == 2 + |key| && b == a + 3 + |name|
    requires |s| == b + 1 && s[0] == '{' && s[1] == '"' && s[2..a] == key && s[a] == '"' && s[a + 1] == ':'
      && s[a + 2] == ' ' && s[a + 3..b] == name && s[b] == '}'
    ensures SubstituteConsts(s, consts, false) == s[..a + 3] + value + s[b..]
  {
    PairSubstitution(s, key, name, consts, false, a, b);
    var rm := ReplaceMatch(s, 1, ValueMatch(a + 3, b, |s|), consts, false);
    assert rm == s[1..a + 3] + value + s[b..|s|];
    ConsReplace(SubstituteConsts(s, consts, false), s, rm, a + 3, b, value);
  }

  /** The first element followed by a middle replaced between `i` and `j`. */
  lemma ConsReplace<T>(x: seq<T>, s: seq<T>, rm: seq<T>, i: nat, j: nat, mid: seq<T>)
    requires 1 <= i <= j <= |s| && x == [s[0]] + rm && rm == s[1..i] + mid + s[j..|s|]
    ensures x == s[..i] + mid + s[j..]
  {
    assert s[j..|s|] == s[j..];
    ConsSlice(s, i);
    ConsAssoc(s[0], s[1..i], mid, s[j..]);
  }

  /**
    With the intended callback, a bare value naming exactly one constant is
    replaced by the constant's value and the key is left alone.
  */
  lemma SubstituteIntendedValue(key: string, name: string, value: string, consts: seq<Const>)
    requires IsWord(key) && IsWord(name) && Named(consts, name) == [Const(name, value)]
    ensures SubstituteConsts("{\"" + key + "\": " + name + "}", consts, false)
      == "{\"" + key + "\": " + value + "}"
  {
    var pre := "{\"" + key + "\": ";
    var s := pre + name + "}";
    var a := 2 + |key|;
    var b := a + 3 + |name|;
    assert s[2..a] == key && s[a + 3..b] == name;
    assert s[0] == '{' && s[1] == '"' && s[a] == '"' && s[a + 1] == ':' && s[a + 2] == ' ' && s[b] == '}';
    IntendedPair(s, key, name, value, consts, a, b);
    Reassemble(SubstituteConsts(s, consts, false), s, pre, value, "}", a + 3, b);
  }

  lemma Reassemble<T>(x: seq<T>, s: seq<T>, pre: seq<T>, mid: seq<T>, post: seq<T>, i: nat, j: nat)
    requires i <= j <= |s| && s[..i] == pre && s[j..] == post && x == s[..i] + mid + s[j..]
    ensures x == pre + mid + post
  {
  }

  /** `m.replace(name, value)` on a match that starts with the quoted key `name`. */
  lemma ReplaceFirstHitsKey(m: string, name: string, value: string)
    requires IsWord(name) && 1 + |name| <= |m| && m[0] == '"' && m[1..1 + |name|] == name
    ensures ReplaceFirst(m, name, value) == m[..1] + value + m[1 + |name|..]
  {
    assert !OccursAt(m, name, 0) by {
      assert IsWordChar(name[0]);
    }
    FirstOccurrence(m, name, 1);
  }

  /** The same-word pair `{"name": name}`, described character by character, as written. */
  lemma AsWrittenPair(s: string, name: string, value: string, consts: seq<Const>, a: nat, b: nat)
    requires IsWord(name) && Named(consts, name) == [Const(name, value)]
    requires a == 2 + |name| && b == a + 3 + |name|
    requires |s| == b + 1 && s[0] == '{' && s[1] == '"' && s[2..a] == name && s[a] == '"' && s[a + 1] == ':'
      && s[a + 2] == ' ' && s[a + 3..b] == name && s[b] == '}'
    ensures SubstituteConsts(s, consts, true) == [s[0]] + [s[1]] + value + s[a..]
  {
    PairSubstitution(s, name, name, consts, true, a, b);
    AsWrittenMatch(s, name, value, consts, a, b);
    ConsAssoc(s[0], [s[1]], value, s[a..]);
  }

  /** The one match of `{"name": name}`, as written: its first `name` is the key's. */
  lemma AsWrittenMatch(s: string, name: string, value: string, consts: seq<Const>, a: nat, b: nat)
    requires IsWord(name) && Named(consts, name) == [Const(name, value)]
    requires a == 2 + |name| && b == a + 3 + |name|
    requires |s| == b + 1 && s[1] == '"' && s[2..a] == name && s[a + 3..b] == name
    ensures ReplaceMatch(s, 1, ValueMatch(a + 3, b, |s|), consts, true) == [s[1]] + value + s[a..]
  {
    var m := s[1..|s|];
    SliceOfSlice(s, 1, |s|, 1, 1 + |name|);
    ReplaceFirstHitsKey(m, name, value);
    SliceOfSlice(s, 1, |s|, 0, 1);
    SliceOfSlice(s, 1, |s|, 1 + |name|, |m|);
    assert m[..1] == [s[1]];
    assert m[1 + |name|..] == s[a..];
    assert ReplaceMatch(s, 1, ValueMatch(a + 3, b, |s|), consts, true) == ReplaceFirst(m, name, value);
  }

  /**
    As written, when the key and the value are the same word, `m.replace(val, value)`
    rewrites the key and leaves the value in place.
  */
  lemma SubstituteAsWrittenRewritesKey(name: string, value: string, consts: seq<Const>)
    requires IsWord(name) && Named(consts, name) == [Const(name, value)]
    ensures SubstituteConsts("{\"" + name + "\": " + name + "}", consts, true)
      == "{\"" + value + "\": " + name + "}"
  {
    var pre := "{\"" + name + "\": ";
    var s := pre + name + "}";
    var a := 2 + |name|;
    var b := a + 3 + |name|;
    assert s[2..a] == name && s[a + 3..b] == name;
    assert s[0] == '{' && s[1] == '"' && s[a] == '"' && s[a + 1] == ':' && s[a + 2] == ' ' && s[b] == '}';
    AsWrittenPair(s, name, value, consts, a, b);
    SliceTail(pre, name, "}", a);
    DropPrefix("{\"" + name, "\": ");
    assert [s[0]] + [s[1]] == "{\"";
    AppendAssoc("{\"" + value, "\": ", name, "}");
  }

  /** A character that cannot start a key is copied. */
  lemma QuoteKeysNonWord(c: char, rest: string)
    requires !IsWordChar(c)
    ensures QuoteKeys([c] + rest) == [c] + QuoteKeys(rest)
  {
    assert ([c] + rest)[1..] == rest;
  }

  /** A word followed by `:` is quoted. */
  lemma QuoteKeysKey(w: string, rest: string)
    requires IsWord(w)
    ensures QuoteKeys(w + ([':'] + rest)) == "\"" + w + "\":" + QuoteKeys(rest)
  {
    var s := w + ([':'] + rest);
    RunEndOver([], w, [':'] + rest, IsWordChar);
    assert [] + w + ([':'] + rest) == s;
    assert s[..|w|] == w && s[|w|] == ':' && s[|w| + 1..] == rest;
  }

  /** `{key: name}` becomes `{"key": name}`. */
  lemma QuoteKeysPair(key: string, name: string)
    requires IsWord(key) && IsWord(name)
    ensures QuoteKeys("{" + key + ": " + name + "}") == "{\"" + key + "\": " + name + "}"
  {
    var tail := name + "}";
    assert ':' !in tail by {
      assert forall k :: 0 <= k < |name| ==> IsWordChar(tail[k]);
    }
    QuoteKeysNonWord(' ', tail);
    QuoteKeysKey(key, [' '] + tail);
    QuoteKeysNonWord('{', key + ([':'] + ([' '] + tail)));
    PairAssocPlain('{', key, ':', ' ', name, '}');
    PairAssocQuoted('{', '"', key, ':', ' ', name, '}');
  }

  /** Proof helper: `{key: name}` in the bracketing the key-quoting lemmas produce. */
  lemma PairAssocPlain<T>(a: T, k: seq<T>, c1: T, c2: T, n: seq<T>, z: T)
    ensures [a] + k + [c1, c2] + n + [z] == [a] + (k + ([c1] + ([c2] + (n + [z]))))
  {
  }

  /** Proof helper: `{"key": name}` in the bracketing the key-quoting lemmas produce. */
  lemma PairAssocQuoted<T>(a: T, q: T, k: seq<T>, c1: T, c2: T, n: seq<T>, z: T)
    ensures [a, q] + k + [q, c1, c2] + n + [z] == [a] + ([q] + k + [q, c1] + ([c2] + (n + [z])))
  {
  }

  /** The intended pipeline on `{key: name}` substitutes the one constant named `name`. */
  lemma ArgsStringIntended(key: string, name: string, value: string, consts: seq<Const>)
    requires IsWord(key) && IsWord(name) && Named(consts, name) == [Const(name, value)]
    ensures ArgsString("{" + key + ": " + name + "}", consts, false) == "{\"" + key + "\": " + value + "}"
  {
    var quoted := "{\"" + key + "\": " + name + "}";
    QuoteKeysPair(key, name);
    WordsHaveNoApostrophe(key, name);
    ReplaceAbsent(quoted, '\'', '"');
    SubstituteIntendedValue(key, name, value, consts);
  }

  /** As written, `{name: name}` gets the constant's value as its key instead. */
  lemma ArgsStringAsWritten(name: string, value: string, consts: seq<Const>)
    requires IsWord(name) && Named(consts, name) == [Const(name, value)]
    ensures ArgsString("{" + name + ": " + name + "}", consts, true) == "{\"" + value + "\": " + name + "}"
  {
    var quoted := "{\"" + name + "\": " + name + "}";
    QuoteKeysPair(name, name);
    WordsHaveNoApostrophe(name, name);
    ReplaceAbsent(quoted, '\'', '"');
    SubstituteAsWrittenRewritesKey(name, value, consts);
  }

  /** Proof helper: a pair of words holds no `'`, so the apostrophe replacement leaves it alone. */
  lemma WordsHaveNoApostrophe(key: string, name: string)
    requires IsWord(key) && IsWord(name)
    ensures '\'' !in "{\"" + key + "\": " + name + "}"
  {
    assert '\'' !in key && '\'' !in name;
  }

  /**
    The argument `{id: id}` with the constant `const id = 5;`: as written the
    key becomes `5` and the value stays `id`, so the object does not parse;
    intended is `{"id": 5}`.
  */
  lemma SameNameKeyAndValue()
    ensures ArgsString("{id: id}", [Const("id", "5")], true) == "{\"5\": id}"
    ensures ArgsString("{id: id}", [Const("id", "5")], false) == "{\"id\": 5}"
  {
    assert IsWord("id");
    assert Named([Const("id", "5")], "id") == [Const("id", "5")];
    IdPairText();
    ArgsStringAsWritten("id", "5", [Const("id", "5")]);
    ArgsStringIntended("id", "id", "5", [Const("id", "5")]);
    AsWrittenIdText();
    IntendedIdText();
  }

  /** Proof helper: the literal `{id: id}` as the concatenation the general lemmas take. */
  lemma IdPairText()
    ensures "{id: id}" == "{" + "id" + ": " + "id" + "}"
  {
  }

  /** Proof helper: the general as-written result, spelled out for `id` and `5`. */
  lemma AsWrittenIdText()
    ensures "{\"" + "5" + "\": " + "id" + "}" == "{\"5\": id}"
  {
  }

  /** Proof helper: the general intended result, spelled out for `id` and `5`. */
  lemma IntendedIdText()
    ensures "{\"" + "id" + "\": " + "5" + "}" == "{\"id\": 5}"
  {
  }

  // ---------------------------------------------------------------- the parser

  /**
    `parseMatchingOutput(text, variables)`, with `JSON.parse` as `parseJson`
    (`None` where it throws) and the callback as written or as intended;
    `None` is the `null` returned when the arguments do not parse.
  */
  function ParseMatchingOutput<J>(text: string, vars: seq<ApprovalVariable>, parseJson: string -> Option<J>,
                                  asWritten: bool): (r: Option<Parsed<J>>)
    ensures r.Some? ==> r.value.tellUser == TellUser(text)
    ensures r.Some? ==> (r.value.functionName == [] <==> r.value.variables.NullArgs?)
    ensures r.Some? && r.value.functionName != [] ==> IsWord(r.value.functionName)
    ensures !Contains(text, CallTag) || Contains(text, CloseTag) ==> r == Some(Parsed("", NullArgs, TellUser(text)))
    ensures r.None? <==> Contains(text, CallTag) && !Contains(text, CloseTag) && exists obj ::
      && FunctionName(FnText(text)).Some?
      && BraceObject(SecondPiece(FnText(text), "(")) == Some(obj)
      && parseJson(ArgsString(obj, AllConsts(vars), asWritten)).None?
    ensures Contains(text, CallTag) && !Contains(text, CloseTag) && FunctionName(FnText(text)).None? ==>
      r == Some(Parsed("", NullArgs, TellUser(text)))
    ensures Contains(text, CallTag) && !Contains(text, CloseTag) && FunctionName(FnText(text)).Some? ==>
      var name := FunctionName(FnText(text)).value;
      match BraceObject(SecondPiece(FnText(text), "("))
      case None => r == Some(Parsed(name, EmptyArgs, TellUser(text)))
      case Some(obj) => r == CallResult(name, parseJson(ArgsString(obj, AllConsts(vars), asWritten)), TellUser(text))
  {
    var tellUser := TellUser(text);
    if !Contains(text, CallTag) || Contains(text, CloseTag) then Some(Parsed("", NullArgs, tellUser))
    else
      var fnText := FnText(text);
      match FunctionName(fnText)
      case None => Some(Parsed("", NullArgs, tellUser))
      case Some(name) =>
        match BraceObject(SecondPiece(fnText, "("))
        case None => Some(Parsed(name, EmptyArgs, tellUser))
        case Some(obj) =>
          match parseJson(ArgsString(obj, AllConsts(vars), asWritten))
          case None => None
          case Some(args) => Some(Parsed(name, ParsedArgs(args), tellUser))
  }

  /** A tag other than `<functionCall>` is not found in a text that has `<` only in its leading call tag. */
  lemma OtherTagAbsent(call: string, tag: string)
    requires '<' !in call && |tag| >= 2 && tag[0] == '<' && tag[1] != 'f'
    ensures !Contains(CallTag + call, tag)
  {
    var text := CallTag + call;
    forall k: nat ensures !OccursAt(text, tag, k) {
      if k + |tag| <= |text| {
        assert text[k..k + |tag|][0] == text[k] && text[k..k + |tag|][1] == text[k + 1];
        if 0 < k < |CallTag| {
          assert text[k] == CallTag[k];
        } else if k >= |CallTag| {
          assert text[k] == call[k - |CallTag|];
        }
      }
    }
    FirstCharAbsentAfter(text, tag);
  }

  lemma FirstCharAbsentAfter(s: string, pat: string)
    requires forall k: nat :: !OccursAt(s, pat, k)
    ensures IndexOf(s, pat) == None
  {
  }

  /**
    A call tag followed by a call without `<`, `/` or a line break: no tell-user
    text, no closing tag, and the function text is the call itself.
  */
  lemma OpenCall(call: string)
    requires '<' !in call && '/' !in call && '\n' !in call
    ensures TellUser(CallTag + call) == [] && Contains(CallTag + call, CallTag)
    ensures !Contains(CallTag + call, CloseTag) && FnText(CallTag + call) == call
  {
    var text := CallTag + call;
    OtherTagAbsent(call, TellUserTag);
    OtherTagAbsent(call, CloseTag);
    assert text[..|CallTag|] == CallTag;
    FirstOccurrence(text, CallTag, 0);
    DropPrefix(CallTag, call);
    FirstCharAbsent(call, CallTag);
    assert SecondPiece(text, CallTag) == call;
    StripCommentsNoSlash(call);
    SplitJoinEmpty(call, '\n');
    RemoveAbsentChar(call, '\n');
  }

  /** After a leading call tag, a text without `<` is the whole function text before comments go. */
  lemma CallPiece(x: string)
    requires '<' !in x
    ensures Contains(CallTag + x, CallTag) && SecondPiece(CallTag + x, CallTag) == x
  {
    var text := CallTag + x;
    assert text[..|CallTag|] == CallTag;
    FirstOccurrence(text, CallTag, 0);
    DropPrefix(CallTag, x);
    FirstCharAbsent(x, CallTag);
  }

  /**
    A `//` comment in the call goes up to its line break, and the line break
    goes with the other newlines: the function text is the code around it.
  */
  lemma FnTextDropsComment(code: string, c: string, more: string)
    requires '<' !in code && '<' !in c && '<' !in more
    requires '/' !in code && '/' !in more && '\n' !in code && '\n' !in more
    requires |c| > 0 && SingleLine(c)
    ensures FnText(CallTag + code + "//" + c + "\n" + more) == code + more
  {
    var x := code + "//" + c + "\n" + more;
    assert '<' !in x;
    assert CallTag + code + "//" + c + "\n" + more == CallTag + x;
    FnTextOfPiece(x);
    CommentLineRemoved(code, c, more);
  }

  lemma FnTextOfPiece(x: string)
    requires '<' !in x
    ensures FnText(CallTag + x) == RemoveChar(StripComments(x), '\n')
  {
    CallPiece(x);
  }

  lemma CommentLineRemoved(code: string, c: string, more: string)
    requires '/' !in code && '/' !in more && '\n' !in code && '\n' !in more
    requires |c| > 0 && SingleLine(c)
    ensures RemoveChar(StripComments(code + "//" + c + "\n" + more), '\n') == code + more
  {
    var nl: string := ['\n'];
    StripCommentLine(code, c, '\n', more);
    StripCommentsNoSlash(more);
    assert StripComments(code + "//" + c + nl + more) == code + nl + more;
    RemoveCharAround(code, '\n', more);
  }

  /** `<functionCall>name()` names the function and has no argument object. */
  lemma ParseCallWithoutArgs<J>(name: string, vars: seq<ApprovalVariable>, parseJson: string -> Option<J>, asWritten: bool)
    requires IsWord(name)
    ensures ParseMatchingOutput(CallTag + name + "()", vars, parseJson, asWritten) == Some(Parsed(name, EmptyArgs, ""))
  {
    var call := name + "(" + ")";
    CallOf(name, ")");
    assert BraceObject(")") == None;
    assert CallTag + name + "()" == CallTag + call by {
      assert name + "()" == call;
      AppendAssoc3(CallTag, name, "()");
    }
    OpenCallWithoutObject(CallTag + call, call, name, vars, parseJson, asWritten);
  }

  /** The parser on an open call whose name has been found but no argument object. */
  lemma OpenCallWithoutObject<J>(text: string, call: string, name: string, vars: seq<ApprovalVariable>,
                                 parseJson: string -> Option<J>, asWritten: bool)
    requires text == CallTag + call && '<' !in call && '/' !in call && '\n' !in call
    requires FunctionName(call) == Some(name) && Contains(call, "(") && BraceObject(SecondPiece(call, "(")).None?
    ensures ParseMatchingOutput(text, vars, parseJson, asWritten) == Some(Parsed(name, EmptyArgs, ""))
  {
    OpenCall(call);
  }

  /** The answer to a call with parsed arguments; `None` when they do not parse. */
  function CallResult<J>(name: string, args: Option<J>, tellUser: string): Option<Parsed<J>> {
    match args
    case None => None
    case Some(a) => Some(Parsed(name, ParsedArgs(a), tellUser))
  }

  /** `<functionCall>name({...})` hands the object, made parseable, to `JSON.parse`. */
  lemma ParseCallWithObject<J>(name: string, body: string, vars: seq<ApprovalVariable>, parseJson: string -> Option<J>,
                               asWritten: bool)
    requires IsWord(name)
    requires forall k :: 0 <= k < |body| ==> NotLineTerminator(body[k]) && body[k] !in "(</"
    ensures var obj := "{" + body + "}";
      ParseMatchingOutput(CallTag + name + "(" + obj + ")", vars, parseJson, asWritten)
      == CallResult(name, parseJson(ArgsString(obj, AllConsts(vars), asWritten)), "")
  {
    var obj := "{" + body + "}";
    var rest := obj + ")";
    var call := name + "(" + rest;
    assert '(' !in rest && '<' !in rest && '/' !in rest && '\n' !in rest;
    CallOf(name, rest);
    BraceObjectOf(body, ")");
    AppendAssoc3(CallTag + name + "(", obj, ")");
    AppendAssoc3(CallTag, name + "(", rest);
    AppendAssoc3(CallTag, name, "(");
    assert CallTag + name + "(" + obj + ")" == CallTag + call;
    OpenCallParse(CallTag + call, call, name, obj, vars, parseJson, asWritten);
  }

  /** A call `name(rest)` with no other `(`: its name, and the text after `(`. */
  lemma CallOf(name: string, rest: string)
    requires IsWord(name) && '(' !in rest && '<' !in rest && '/' !in rest && '\n' !in rest
    ensures var call := name + "(" + rest;
      && '<' !in call && '/' !in call && '\n' !in call
      && FunctionName(call) == Some(name) && Contains(call, "(") && SecondPiece(call, "(") == rest
  {
    WordHasNone(name);
    FunctionNameOf(name, rest);
    SecondPieceAfter(name, '(', rest);
  }

  /** The parser on an open call whose name and argument object have been found. */
  lemma OpenCallParse<J>(text: string, call: string, name: string, obj: string, vars: seq<ApprovalVariable>,
                         parseJson: string -> Option<J>, asWritten: bool)
    requires text == CallTag + call && '<' !in call && '/' !in call && '\n' !in call
    requires FunctionName(call) == Some(name) && Contains(call, "(") && BraceObject(SecondPiece(call, "(")) == Some(obj)
    ensures ParseMatchingOutput(text, vars, parseJson, asWritten)
      == CallResult(name, parseJson(ArgsString(obj, AllConsts(vars), asWritten)), "")
  {
    OpenCall(call);
  }

  /** A word holds none of the characters the parser splits on. */
  lemma WordHasNone(w: string)
    requires IsWord(w)
    ensures '<' !in w && '/' !in w && '\n' !in w && '(' !in w
  {
  }

  /** One variable with one well-formed declaration contributes exactly that constant. */
  lemma AllConstsOfOne(v: ApprovalVariable, c: Const)
    requires |v.consts| == 1 && ParseConst(v.consts[0]) == Some(c)
    ensures AllConsts([v]) == [c]
  {
    assert ParseAll([v]) == ParseEach(v.consts) + ParseAll([]);
    assert ParseAll([v]) == [Some(c)];
    assert [Some(c)][1..] == [];
    assert Present([Some(c)]) == [c] + Present([]);
  }

  /**
    The whole parser on `<functionCall>f({id: id})` with the variable `id`
    declared as `const id = 5;`: as written `JSON.parse` receives `{"5": id}`,
    intended is `{"id": 5}`.
  */
  lemma SameNameEndToEnd<J>(parseJson: string -> Option<J>)
    ensures var vars := [ApprovalVariable("id", "number", ["const id = 5;"])];
      && ParseMatchingOutput(CallTag + "f" + "(" + "{id: id}" + ")", vars, parseJson, true)
        == CallResult("f", parseJson("{\"5\": id}"), "")
      && ParseMatchingOutput(CallTag + "f" + "(" + "{id: id}" + ")", vars, parseJson, false)
        == CallResult("f", parseJson("{\"id\": 5}"), "")
  {
    var vars := [ApprovalVariable("id", "number", ["const id = 5;"])];
    assert IsWord("id") && IsWord("f") && SingleLine("5") && !IsWhitespace('5');
    ParseDeclaration("id", "5");
    assert "const " + "id" + " = " + "5" + ";" == "const id = 5;";
    AllConstsOfOne(vars[0], Const("id", "5"));
    var body := "id: id";
    assert "{id: id}" == "{" + body + "}";
    ParseCallWithObject("f", body, vars, parseJson, true);
    ParseCallWithObject("f", body, vars, parseJson, false);
    SameNameKeyAndValue();
  }
}
