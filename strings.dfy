/**
  The string and regular-expression primitives of JavaScript that the matching
  prompt, its output parser and the clarification race rely on: the character
  classes `\w`, `\d`, `\s` and the line terminators that `.` refuses,
  `indexOf`, `split`/`join`, `replace` with a string pattern, `trimStart`,
  and de-duplication in insertion order as `Array.from(new Set(...))` does it.
*/
module Strings {
  import opened Wrappers

  /** `\w`: ASCII letters, digits and the underscore. */
  predicate IsWordChar(c: char) {
    ('a' <= c <= 'z') || ('A' <= c <= 'Z') || ('0' <= c <= '9') || c == '_'
  }

  /** `\d`; for a `\w` character it is also exactly `!isNaN(Number(c))`. */
  predicate IsDigit(c: char) {
    '0' <= c <= '9'
  }

  /** The line terminators, which `.` in a regular expression does not match. */
  predicate IsLineTerminator(c: char) {
    c == '\n' || c == '\r' || c == '\U{2028}' || c == '\U{2029}'
  }

  /** `\s`, which is also the set of characters `trimStart` removes. */
  predicate IsWhitespace(c: char) {
    || c == ' ' || c == '\t' || c == '\n' || c == '\r' || c == '\U{B}' || c == '\U{C}'
    || c == '\U{A0}' || c == '\U{1680}' || ('\U{2000}' <= c <= '\U{200A}')
    || c == '\U{2028}' || c == '\U{2029}' || c == '\U{202F}' || c == '\U{205F}'
    || c == '\U{3000}' || c == '\U{FEFF}'
  }

  /** A match of `\w+`. */
  predicate IsWord(w: string) {
    |w| > 0 && forall k :: 0 <= k < |w| ==> IsWordChar(w[k])
  }

  predicate NotLineTerminator(c: char) {
    !IsLineTerminator(c)
  }

  /** The end of the longest run of characters satisfying `p` that starts at `i`. */
  function RunEnd(s: string, i: nat, p: char -> bool): (j: nat)
    requires i <= |s|
    ensures i <= j <= |s|
    ensures forall k :: i <= k < j ==> p(s[k])
    ensures j == |s| || !p(s[j])
    decreases |s| - i
  {
    if i < |s| && p(s[i]) then RunEnd(s, i + 1, p) else i
  }

  /** A run that stops where `p` first fails ends there. */
  lemma RunEndAt(s: string, i: nat, j: nat, p: char -> bool)
    requires i <= j <= |s|
    requires forall k :: i <= k < j ==> p(s[k])
    requires j == |s| || !p(s[j])
    ensures RunEnd(s, i, p) == j
  {
  }

  /** The run over `w` written between `pre` and a `post` that does not continue it. */
  lemma RunEndOver(pre: string, w: string, post: string, p: char -> bool)
    requires forall k :: 0 <= k < |w| ==> p(w[k])
    requires post == [] || !p(post[0])
    ensures RunEnd(pre + w + post, |pre|, p) == |pre| + |w|
  {
    var s := pre + w + post;
    forall k | |pre| <= k < |pre| + |w| ensures p(s[k]) {
      assert s[k] == w[k - |pre|];
    }
    if post != [] {
      assert s[|pre| + |w|] == post[0];
    }
    RunEndAt(s, |pre|, |pre| + |w|, p);
  }

  // ---------------------------------------------------------------- proof helpers: slicing and regrouping

  /** A sequence is the part before position `j` and the part from there on. */
  lemma SplitInTwo<T>(s: seq<T>, j: nat)
    requires j <= |s|
    ensures s == s[..j] + s[j..]
  {
  }

  /** A sequence is the part before position `j`, the element there, and the part after. */
  lemma SplitAt<T>(s: seq<T>, j: nat)
    requires j < |s|
    ensures s == s[..j] + [s[j]] + s[j + 1..]
  {
  }

  /** A suffix is the slice up to `j` followed by the suffix from `j`. */
  lemma SplitSlice<T>(s: seq<T>, i: nat, j: nat)
    requires i <= j <= |s|
    ensures s[i..] == s[i..j] + s[j..]
  {
  }

  /** The first element and the slice after it make up the prefix. */
  lemma ConsSlice<T>(s: seq<T>, n: nat)
    requires 0 < n <= |s|
    ensures [s[0]] + s[1..n] == s[..n]
  {
  }

  /** Proof helper: regroups a concatenation after a first element. */
  lemma ConsAssoc<T>(x: T, a: seq<T>, b: seq<T>, c: seq<T>)
    ensures [x] + (a + b + c) == [x] + a + b + c
  {
  }

  /** Proof helper: regroups three concatenated parts to the right. */
  lemma AppendAssoc3<T>(a: seq<T>, b: seq<T>, c: seq<T>)
    ensures a + b + c == a + (b + c)
  {
  }

  /** Proof helper: regroups four concatenated parts to the left. */
  lemma AppendAssoc<T>(a: seq<T>, b: seq<T>, c: seq<T>, d: seq<T>)
    ensures a + (b + c + d) == a + b + c + d
  {
  }

  /** A suffix of `pre + w + post` that starts inside `pre`. */
  lemma SliceTail<T>(pre: seq<T>, w: seq<T>, post: seq<T>, n: nat)
    requires n <= |pre|
    ensures (pre + w + post)[n..] == pre[n..] + w + post
  {
  }

  lemma DropPrefix<T>(a: seq<T>, b: seq<T>)
    ensures (a + b)[|a|..] == b
  {
  }

  lemma SliceOfSlice<T>(s: seq<T>, i: nat, j: nat, k: nat, l: nat)
    requires i <= j <= |s| && k <= l <= j - i
    ensures s[i..j][k..l] == s[i + k..i + l]
  {
    forall t | 0 <= t < l - k ensures s[i..j][k..l][t] == s[i + k..i + l][t] {
      assert s[i..j][k..l][t] == s[i..j][k + t] == s[i + k + t];
    }
  }

  // ---------------------------------------------------------------- search

  predicate OccursAt(s: string, pat: string, k: nat) {
    k + |pat| <= |s| && s[k..k + |pat|] == pat
  }

  /** The first occurrence of `pat` in `s` at or after `i`. */
  function IndexFrom(s: string, pat: string, i: nat): (r: Option<nat>)
    ensures r.Some? ==> i <= r.value && OccursAt(s, pat, r.value)
    ensures forall k :: i <= k && (r.None? || k < r.value) ==> !OccursAt(s, pat, k)
    decreases |s| - i
  {
    if i + |pat| > |s| then None
    else if s[i..i + |pat|] == pat then Some(i)
    else
      assert |pat| > 0;
      IndexFrom(s, pat, i + 1)
  }

  /** `s.indexOf(pat)`, with -1 as None. */
  function IndexOf(s: string, pat: string): (r: Option<nat>)
    ensures r.Some? ==> OccursAt(s, pat, r.value)
    ensures forall k: nat :: (r.None? || k < r.value) ==> !OccursAt(s, pat, k)
  {
    IndexFrom(s, pat, 0)
  }

  /** An occurrence with none before it is the first. */
  lemma FirstOccurrence(s: string, pat: string, k: nat)
    requires OccursAt(s, pat, k) && forall j :: 0 <= j < k ==> !OccursAt(s, pat, j)
    ensures IndexOf(s, pat) == Some(k)
  {
  }

  /** A pattern whose first character does not occur is not found. */
  lemma FirstCharAbsent(s: string, pat: string)
    requires |pat| > 0 && pat[0] !in s
    ensures IndexOf(s, pat) == None
  {
    forall k: nat ensures !OccursAt(s, pat, k) {
      if k + |pat| <= |s| {
        assert s[k..k + |pat|][0] == s[k];
      }
    }
  }

  /** Whether the regular expression made of the literal `pat` matches `s`. */
  predicate Contains(s: string, pat: string) {
    IndexOf(s, pat).Some?
  }

  /** `s.replace(pat, rep)` with a string pattern: only the first occurrence is replaced. */
  function ReplaceFirst(s: string, pat: string, rep: string): string {
    match IndexOf(s, pat)
    case None => s
    case Some(k) => s[..k] + rep + s[k + |pat|..]
  }

  /** `s.split(pat)[1]`: the text between the first occurrence of `pat` and the next one, or the end. */
  function SecondPiece(s: string, pat: string): (r: string)
    requires Contains(s, pat) && |pat| > 0
    ensures !Contains(r, pat)
    ensures var k := IndexOf(s, pat).value;
      k + |pat| + |r| <= |s| && s[k + |pat|..k + |pat| + |r|] == r
  {
    var k := IndexOf(s, pat).value;
    var rest := s[k + |pat|..];
    match IndexOf(rest, pat)
    case None => rest
    case Some(k2) =>
      assert forall j: nat :: OccursAt(rest[..k2], pat, j) ==> OccursAt(rest, pat, j) && j < k2 by {
        forall j: nat | OccursAt(rest[..k2], pat, j) ensures OccursAt(rest, pat, j) && j < k2 {
          OccursInPrefix(rest, k2, pat, j);
        }
      }
      rest[..k2]
  }

  /** Split at the only occurrence of a one-character separator, the second piece is what follows it. */
  lemma SecondPieceAfter(pre: string, c: char, rest: string)
    requires c !in pre && c !in rest
    ensures Contains(pre + [c] + rest, [c]) && SecondPiece(pre + [c] + rest, [c]) == rest
  {
    var s := pre + [c] + rest;
    assert s[|pre|..|pre| + 1] == [c];
    forall j: nat | j < |pre| ensures !OccursAt(s, [c], j) {
      assert s[j] == pre[j];
    }
    FirstOccurrence(s, [c], |pre|);
    assert s[|pre| + 1..] == rest;
    FirstCharAbsent(rest, [c]);
  }

  lemma OccursInPrefix(s: string, n: nat, pat: string, j: nat)
    requires n <= |s| && OccursAt(s[..n], pat, j)
    ensures OccursAt(s, pat, j) && j + |pat| <= n
  {
    assert s[..n][j..j + |pat|] == s[j..j + |pat|];
  }

  // ---------------------------------------------------------------- trim

  /** `s.trimStart()`. */
  function TrimStart(s: string): (r: string)
    ensures |r| <= |s| && r == s[|s| - |r|..]
    ensures r == [] || !IsWhitespace(r[0])
    ensures forall k :: 0 <= k < |s| - |r| ==> IsWhitespace(s[k])
  {
    s[RunEnd(s, 0, IsWhitespace)..]
  }

  // ---------------------------------------------------------------- split and join

  /** `s.split(d)` for a one-character separator. */
  function Split(s: string, d: char): (parts: seq<string>)
    ensures |parts| >= 1
    ensures forall i :: 0 <= i < |parts| ==> d !in parts[i]
    decreases |s|
  {
    if s == [] then [""]
    else
      var rest := Split(s[1..], d);
      if s[0] == d then [""] + rest else [[s[0]] + rest[0]] + rest[1..]
  }

  /** `parts.join(sep)`. */
  function Join(parts: seq<string>, sep: string): string {
    if |parts| == 0 then ""
    else if |parts| == 1 then parts[0]
    else parts[0] + sep + Join(parts[1..], sep)
  }

  lemma JoinConsHead(c: char, rest: seq<string>, sep: string)
    requires |rest| >= 1
    ensures Join([[c] + rest[0]] + rest[1..], sep) == [c] + Join(rest, sep)
  {
    var xs := [[c] + rest[0]] + rest[1..];
    if |rest| > 1 {
      assert xs[1..] == rest[1..];
    }
  }

  /** Joining the pieces of a split with the separator gives the text back. */
  lemma {:induction false} JoinSplit(s: string, d: char)
    ensures Join(Split(s, d), [d]) == s
  {
    if s != [] {
      JoinSplit(s[1..], d);
      var rest := Split(s[1..], d);
      if s[0] == d {
        assert ([""] + rest)[1..] == rest;
      } else {
        JoinConsHead(s[0], rest, [d]);
      }
    }
  }

  lemma {:induction false} SplitAfterPiece(w: string, u: string, d: char)
    requires d !in w
    ensures Split(w + [d] + u, d) == [w] + Split(u, d)
  {
    if w == [] {
      assert w + [d] + u == [d] + u;
      assert ([d] + u)[1..] == u;
    } else {
      assert (w + [d] + u)[1..] == w[1..] + [d] + u;
      SplitAfterPiece(w[1..], u, d);
      assert [w[0]] + w[1..] == w;
    }
  }

  lemma {:induction false} SplitOfPiece(w: string, d: char)
    requires d !in w
    ensures Split(w, d) == [w]
  {
    if w != [] {
      SplitOfPiece(w[1..], d);
      assert [w[0]] + w[1..] == w;
    }
  }

  /** Splitting a join of separator-free pieces gives the pieces back. */
  lemma {:induction false} SplitJoin(parts: seq<string>, d: char)
    requires |parts| >= 1
    requires forall i :: 0 <= i < |parts| ==> d !in parts[i]
    ensures Split(Join(parts, [d]), d) == parts
  {
    if |parts| == 1 {
      SplitOfPiece(parts[0], d);
    } else {
      SplitJoin(parts[1..], d);
      SplitAfterPiece(parts[0], Join(parts[1..], [d]), d);
      assert [parts[0]] + parts[1..] == parts;
    }
  }

  /** `.filter(Boolean)` on strings: drops the empty ones. */
  function NonEmpty(parts: seq<string>): (r: seq<string>)
    ensures forall i :: 0 <= i < |r| ==> r[i] != [] && r[i] in parts
  {
    if parts == [] then []
    else (if parts[0] == [] then [] else [parts[0]]) + NonEmpty(parts[1..])
  }

  /** `s.split("\n").filter(Boolean)`. */
  function NonEmptyLines(s: string): (lines: seq<string>)
    ensures forall i :: 0 <= i < |lines| ==> lines[i] != [] && '\n' !in lines[i]
  {
    NonEmpty(Split(s, '\n'))
  }

  /** `Array.prototype.flat` on one level. */
  function Flatten<T>(ss: seq<seq<T>>): seq<T> {
    if ss == [] then [] else ss[0] + Flatten(ss[1..])
  }

  lemma {:induction false} FlattenSnoc<T>(ss: seq<seq<T>>, x: seq<T>)
    ensures Flatten(ss + [x]) == Flatten(ss) + x
  {
    if ss != [] {
      assert (ss + [x])[1..] == ss[1..] + [x];
      FlattenSnoc(ss[1..], x);
    }
  }

  /** `s.split(c).join("")`: every occurrence of `c` removed. */
  function RemoveChar(s: string, c: char): (r: string)
    ensures c !in r && |r| <= |s|
  {
    if s == [] then [] else (if s[0] == c then [] else [s[0]]) + RemoveChar(s[1..], c)
  }

  lemma RemoveCharCons(x: char, s: string, c: char)
    ensures RemoveChar([x] + s, c) == (if x == c then [] else [x]) + RemoveChar(s, c)
  {
    assert ([x] + s)[1..] == s;
  }

  lemma {:induction false} RemoveCharAppend(a: string, b: string, c: char)
    ensures RemoveChar(a + b, c) == RemoveChar(a, c) + RemoveChar(b, c)
  {
    if a != [] {
      assert (a + b)[0] == a[0] && (a + b)[1..] == a[1..] + b;
      RemoveCharAppend(a[1..], b, c);
      assert RemoveChar(a + b, c) == (if a[0] == c then [] else [a[0]]) + RemoveChar(a[1..] + b, c);
    } else {
      assert a + b == b;
    }
  }

  /** Joining with the empty separator concatenates. */
  lemma {:induction false} JoinEmptyIsFlatten(parts: seq<string>)
    ensures Join(parts, "") == Flatten(parts)
  {
    if |parts| > 1 {
      JoinEmptyIsFlatten(parts[1..]);
    }
  }

  /** `s.split(c).join("")` removes every `c`. */
  lemma SplitJoinEmpty(s: string, c: char)
    ensures Join(Split(s, c), "") == RemoveChar(s, c)
  {
    JoinEmptyIsFlatten(Split(s, c));
    FlattenSplit(s, c);
  }

  lemma {:induction false} RemoveAbsentChar(s: string, c: char)
    requires c !in s
    ensures RemoveChar(s, c) == s
  {
    if s != [] {
      RemoveAbsentChar(s[1..], c);
    }
  }

  /** Removing the one `c` between two texts without it joins them. */
  lemma RemoveCharAround(a: string, c: char, b: string)
    requires c !in a && c !in b
    ensures RemoveChar(a + [c] + b, c) == a + b
  {
    RemoveCharCons(c, [], c);
    assert [c] + [] == [c];
    assert RemoveChar([c], c) == [];
    RemoveCharAppend(a, [c], c);
    RemoveAbsentChar(a, c);
    assert RemoveChar(a + [c], c) == a;
    RemoveCharAppend(a + [c], b, c);
    RemoveAbsentChar(b, c);
  }

  /** Removing `d` keeps every other character. */
  lemma {:induction false} RemoveCharKeeps(s: string, c: char, d: char)
    requires c != d
    ensures c in RemoveChar(s, d) <==> c in s
  {
    if s != [] {
      RemoveCharKeeps(s[1..], c, d);
      assert s == [s[0]] + s[1..];
    }
  }

  /** `s.replace(/a/g, b)` for one character `a`. */
  function ReplaceAll(s: string, a: char, b: char): (r: string)
    ensures |r| == |s|
    ensures a != b ==> a !in r
    ensures forall k :: 0 <= k < |s| ==> r[k] == if s[k] == a then b else s[k]
  {
    if s == [] then [] else [if s[0] == a then b else s[0]] + ReplaceAll(s[1..], a, b)
  }

  /** Replacing a character that does not occur changes nothing. */
  lemma ReplaceAbsent(s: string, a: char, b: char)
    ensures a !in s ==> ReplaceAll(s, a, b) == s
  {
  }

  lemma {:induction false} FlattenSplit(s: string, d: char)
    ensures Flatten(Split(s, d)) == RemoveChar(s, d)
  {
    if s != [] {
      FlattenSplit(s[1..], d);
      var rest := Split(s[1..], d);
      if s[0] == d {
        assert ([""] + rest)[1..] == rest;
      } else {
        var xs := [[s[0]] + rest[0]] + rest[1..];
        assert xs[1..] == rest[1..];
        assert Flatten(rest) == rest[0] + Flatten(rest[1..]);
      }
    }
  }

  lemma {:induction false} FlattenNonEmpty(parts: seq<string>)
    ensures Flatten(NonEmpty(parts)) == Flatten(parts)
  {
    if parts != [] {
      FlattenNonEmpty(parts[1..]);
      if parts[0] == [] {
        assert NonEmpty(parts) == NonEmpty(parts[1..]);
      }
    }
  }

  /** The non-empty lines of a text, put back together, are the text without its newlines. */
  lemma NonEmptyLinesLoseOnlyNewlines(s: string)
    ensures Flatten(NonEmptyLines(s)) == RemoveChar(s, '\n')
  {
    FlattenNonEmpty(Split(s, '\n'));
    FlattenSplit(s, '\n');
  }

  // ---------------------------------------------------------------- de-duplication

  predicate NoDuplicates<T(==)>(s: seq<T>) {
    forall i, j :: 0 <= i < j < |s| ==> s[i] != s[j]
  }

  /**
    `Array.from(new Set(s))`, and equally the `if (!xs.includes(x)) xs.push(x)` idiom:
    the first occurrence of each element, in order.
  */
  function Dedup<T(==)>(s: seq<T>): (r: seq<T>)
    ensures forall i :: 0 <= i < |r| ==> r[i] in s
    ensures forall i :: 0 <= i < |s| ==> s[i] in r
    ensures NoDuplicates(r)
    decreases |s|
  {
    if s == [] then []
    else
      var d := Dedup(s[..|s| - 1]);
      assert s == s[..|s| - 1] + [s[|s| - 1]];
      if s[|s| - 1] in d then d else d + [s[|s| - 1]]
  }

  lemma DedupSnoc<T>(s: seq<T>, x: T)
    ensures Dedup(s + [x]) == if x in Dedup(s) then Dedup(s) else Dedup(s) + [x]
  {
    assert (s + [x])[..|s|] == s;
  }

  /** The index of the first occurrence of `x` in `s`. */
  function FirstIndex<T(==)>(s: seq<T>, x: T): (i: nat)
    requires x in s
    ensures i < |s| && s[i] == x && x !in s[..i]
  {
    if s[0] == x then 0
    else
      var i := 1 + FirstIndex(s[1..], x);
      assert s[..i] == [s[0]] + s[1..][..i - 1];
      i
  }

  lemma FirstIndexInPrefix<T>(p: seq<T>, q: seq<T>, x: T)
    requires x in p
    ensures FirstIndex(p + q, x) == FirstIndex(p, x)
  {
    var i, i' := FirstIndex(p + q, x), FirstIndex(p, x);
    forall k | 0 <= k < i ensures (p + q)[k] != x {
      assert (p + q)[..i][k] == (p + q)[k];
    }
    assert (p + q)[i'] == x;
    forall k | 0 <= k < i' ensures p[k] != x {
      assert p[..i'][k] == p[k];
    }
    assert p[i] == x;
  }

  /** De-duplication keeps the elements in the order of their first occurrences. */
  lemma {:induction false} DedupKeepsFirstOccurrenceOrder<T>(s: seq<T>)
    ensures forall i, j :: 0 <= i < j < |Dedup(s)| ==>
      FirstIndex(s, Dedup(s)[i]) < FirstIndex(s, Dedup(s)[j])
  {
    if s != [] {
      var p, y := s[..|s| - 1], s[|s| - 1];
      assert s == p + [y];
      DedupKeepsFirstOccurrenceOrder(p);
      var d := Dedup(p);
      forall i, j | 0 <= i < j < |Dedup(s)|
        ensures FirstIndex(s, Dedup(s)[i]) < FirstIndex(s, Dedup(s)[j])
      {
        FirstIndexInPrefix(p, [y], Dedup(s)[i]);
        if j < |d| {
          FirstIndexInPrefix(p, [y], Dedup(s)[j]);
        } else {
          assert Dedup(s)[j] == y && y !in p;
          assert FirstIndex(s, y) == |p|;
        }
      }
    }
  }

  // ---------------------------------------------------------------- numbers

  function DigitChar(d: nat): (c: char)
    requires d < 10
    ensures IsDigit(c)
  {
    ('0' as int + d) as char
  }

  /** The decimal rendering of a natural number, as `${n}` gives it. */
  function DecimalString(n: nat): (s: string)
    ensures |s| >= 1 && forall k :: 0 <= k < |s| ==> IsDigit(s[k])
  {
    if n < 10 then [DigitChar(n)] else DecimalString(n / 10) + [DigitChar(n % 10)]
  }

  function DecimalValue(s: string): int
    requires forall k :: 0 <= k < |s| ==> IsDigit(s[k])
  {
    if s == [] then 0 else 10 * DecimalValue(s[..|s| - 1]) + (s[|s| - 1] as int - '0' as int)
  }

  /** The rendering can be read back: `Number(String(n)) == n`. */
  lemma {:induction false} DecimalRoundTrip(n: nat)
    ensures DecimalValue(DecimalString(n)) == n
  {
    if n >= 10 {
      DecimalRoundTrip(n / 10);
      var s := DecimalString(n);
      assert s[..|s| - 1] == DecimalString(n / 10);
    }
  }
}
