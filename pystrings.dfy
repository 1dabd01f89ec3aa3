/** The pieces of Python's `str` that DDLtoXML.py relies on: `split` on one
    character, `replace(c, '')`, `strip()`, `partition(c)[-1]` and the
    substring test `w in s`. `Join` (`'sep'.join`) and `Concat` are not used
    by the script; they state what `split` and `replace` keep. Strings are
    sequences of characters. */
module PyStrings {

  /** Python's `str.isspace()`: the characters `strip()` removes. */
  predicate IsSpace(c: char) {
    ('\U{9}' <= c <= '\U{D}') || ('\U{1C}' <= c <= '\U{20}')
    || c == '\U{85}' || c == '\U{A0}' || c == '\U{1680}'
    || ('\U{2000}' <= c <= '\U{200A}')
    || c == '\U{2028}' || c == '\U{2029}' || c == '\U{202F}'
    || c == '\U{205F}' || c == '\U{3000}'
  }

  // ---------------------------------------------------------------------------
  // s.split(d) for a one-character separator d

  /** `s.split(d)`: the pieces between the occurrences of `d`; never empty. */
  function Split(s: string, d: char): (r: seq<string>)
    ensures |r| >= 1
    decreases |s|
  {
    if |s| == 0 then [""]
    else
      var rest := Split(s[1..], d);
      if s[0] == d then [""] + rest
      else [[s[0]] + rest[0]] + rest[1..]
  }

  /** There is one piece more than there are separators, and no piece holds
      the separator. */
  lemma {:induction false} SplitFacts(s: string, d: char)
    ensures |Split(s, d)| == multiset(s)[d] + 1
    ensures forall k :: 0 <= k < |Split(s, d)| ==> d !in Split(s, d)[k]
    decreases |s|
  {
    if |s| > 0 {
      assert s == [s[0]] + s[1..];
      SplitFacts(s[1..], d);
      var rest := Split(s[1..], d);
      if s[0] != d {
        assert forall k :: 1 <= k < |rest| ==> Split(s, d)[k] == rest[k];
      }
    }
  }

  /** `x` is the text of `t` before its first `c`: all of `t` when there is
      no `c`. */
  predicate LeadsUpTo(t: string, x: string, c: char) {
    x <= t && c !in x && (|x| == |t| || t[|x|] == c)
  }

  /** The first piece of `split(c)` is the text before the first `c`; the
      remaining pieces are those of the text after it, and there are none
      when there is no `c`. */
  lemma {:induction false} FirstPieceIs(t: string, c: char, x: string)
    requires LeadsUpTo(t, x, c)
    ensures Split(t, c)[0] == x
    ensures |x| == |t| ==> |Split(t, c)| == 1
    ensures |x| < |t| ==> |Split(t, c)| >= 2 && Split(t, c)[1..] == Split(t[|x| + 1..], c)
    decreases |x|
  {
    if x != [] {
      assert t[0] == x[0] && x[0] != c;
      assert t[1..][|x| - 1..] == t[|x|..];
      FirstPieceIs(t[1..], c, x[1..]);
      assert x == [t[0]] + x[1..];
    } else if |t| > 0 {
      assert t[0] == c;
    }
  }

  /** Every text has a first piece before its first `c`. */
  lemma {:induction false} FirstPieceLeads(t: string, c: char)
    ensures LeadsUpTo(t, Split(t, c)[0], c)
    decreases |t|
  {
    if |t| > 0 && t[0] != c {
      FirstPieceLeads(t[1..], c);
      var x := Split(t[1..], c)[0];
      assert Split(t, c)[0] == [t[0]] + x;
      assert t == [t[0]] + t[1..];
    }
  }

  /** `d.join(parts)` for a one-character separator. */
  function Join(parts: seq<string>, d: char): string
    decreases |parts|
  {
    if |parts| == 0 then ""
    else if |parts| == 1 then parts[0]
    else parts[0] + [d] + Join(parts[1..], d)
  }

  /** `''.join(parts)`. */
  function Concat(parts: seq<string>): string
    decreases |parts|
  {
    if |parts| == 0 then "" else parts[0] + Concat(parts[1..])
  }

  lemma JoinConsFirst(c: char, parts: seq<string>, d: char)
    requires |parts| >= 1
    ensures Join([[c] + parts[0]] + parts[1..], d) == [c] + Join(parts, d)
  {
    var q := [[c] + parts[0]] + parts[1..];
    assert q[1..] == parts[1..];
  }

  /** Joining the pieces of a split with the same separator gives the text back. */
  lemma {:induction false} JoinSplit(s: string, d: char)
    ensures Join(Split(s, d), d) == s
    decreases |s|
  {
    if |s| > 0 {
      JoinSplit(s[1..], d);
      var rest := Split(s[1..], d);
      if s[0] == d {
        assert ([""] + rest)[1..] == rest;
      } else {
        JoinConsFirst(s[0], rest, d);
      }
      assert s == [s[0]] + s[1..];
    }
  }

  /** A character absent from the text is absent from every piece. */
  lemma {:induction false} SplitKeepsAbsent(s: string, d: char, c: char)
    requires c !in s
    ensures forall k :: 0 <= k < |Split(s, d)| ==> c !in Split(s, d)[k]
    decreases |s|
  {
    if |s| > 0 {
      SplitKeepsAbsent(s[1..], d, c);
      var rest := Split(s[1..], d);
      if s[0] != d {
        assert forall k :: 1 <= k < |rest| ==> Split(s, d)[k] == rest[k];
      }
    }
  }

  /** Joining a list with a head: the head, then the separator and the rest. */
  lemma JoinCons(x: string, ys: seq<string>, d: char)
    ensures Join([x] + ys, d) == if ys == [] then x else x + [d] + Join(ys, d)
  {
    assert ([x] + ys)[1..] == ys;
  }

  /** Joining pieces free of `c` with another separator adds no `c`. */
  lemma {:induction false} JoinKeepsAbsent(parts: seq<string>, d: char, c: char)
    requires c != d
    requires forall k :: 0 <= k < |parts| ==> c !in parts[k]
    ensures c !in Join(parts, d)
    decreases |parts|
  {
    if |parts| > 1 {
      JoinKeepsAbsent(parts[1..], d, c);
      assert forall k :: 0 <= k < |parts| - 1 ==> parts[1..][k] == parts[k + 1];
    }
  }

  /** Joined text begins with its first two pieces and the separator between;
      it is exactly those when there are two pieces, and the separator follows
      them when there are more. */
  lemma JoinStartsWithFirstTwo(parts: seq<string>, d: char)
    requires |parts| >= 2
    ensures parts[0] + [d] + parts[1] <= Join(parts, d)
    ensures |parts| == 2 ==> Join(parts, d) == parts[0] + [d] + parts[1]
    ensures |parts| > 2 ==> parts[0] + [d] + parts[1] + [d] <= Join(parts, d)
  {
    var tail := parts[1..];
    assert tail[0] == parts[1];
    if |tail| > 1 {
      assert Join(tail, d) == parts[1] + [d] + Join(tail[1..], d);
      assert Join(parts, d) == parts[0] + [d] + parts[1] + [d] + Join(tail[1..], d);
    }
  }

  /** Joining two non-empty lists: the first joined, the separator, the
      second joined. */
  lemma {:induction false} JoinAppend(xs: seq<string>, ys: seq<string>, d: char)
    requires |xs| >= 1 && |ys| >= 1
    ensures Join(xs + ys, d) == Join(xs, d) + [d] + Join(ys, d)
    decreases |xs|
  {
    if |xs| == 1 {
      JoinCons(xs[0], ys, d);
      assert xs + ys == [xs[0]] + ys;
    } else {
      JoinAppend(xs[1..], ys, d);
      assert xs + ys == [xs[0]] + (xs[1..] + ys);
      JoinCons(xs[0], xs[1..] + ys, d);
      JoinCons(xs[0], xs[1..], d);
    }
  }

  /** Text placed before a joined list becomes part of its first piece. */
  lemma JoinPrefixFirst(p: string, xs: seq<string>, d: char)
    requires |xs| >= 1
    ensures p + Join(xs, d) == Join([p + xs[0]] + xs[1..], d)
  {
    JoinCons(xs[0], xs[1..], d);
    JoinCons(p + xs[0], xs[1..], d);
    assert [xs[0]] + xs[1..] == xs;
  }

  /** A prefix free of the separator joins the first piece of the rest. */
  lemma {:induction false} SplitFreePrefix(a: string, t: string, d: char)
    requires d !in a
    ensures Split(a + t, d) == [a + Split(t, d)[0]] + Split(t, d)[1..]
    decreases |a|
  {
    if |a| > 0 {
      assert (a + t)[0] == a[0] && (a + t)[1..] == a[1..] + t;
      SplitFreePrefix(a[1..], t, d);
      var sp := Split(t, d);
      var rest := Split(a[1..] + t, d);
      assert rest[0] == a[1..] + sp[0] && rest[1..] == sp[1..];
      assert [a[0]] + (a[1..] + sp[0]) == a + sp[0];
    } else {
      assert a + t == t;
      assert a + Split(t, d)[0] == Split(t, d)[0];
      assert [Split(t, d)[0]] + Split(t, d)[1..] == Split(t, d);
    }
  }

  /** Splitting pieces joined by their separator gives the pieces back, as long
      as no piece holds the separator. */
  lemma {:induction false} SplitJoin(parts: seq<string>, d: char)
    requires |parts| >= 1
    requires forall k :: 0 <= k < |parts| ==> d !in parts[k]
    ensures Split(Join(parts, d), d) == parts
    decreases |parts|
  {
    if |parts| == 1 {
      SplitFreePrefix(parts[0], "", d);
      assert parts[0] + "" == parts[0];
    } else {
      SplitJoin(parts[1..], d);
      var t := [d] + Join(parts[1..], d);
      assert t[1..] == Join(parts[1..], d);
      assert Split(t, d) == [""] + parts[1..];
      SplitFreePrefix(parts[0], t, d);
      assert parts[0] + t == Join(parts, d);
      assert parts[0] + "" == parts[0];
      assert [parts[0]] + parts[1..] == parts;
    }
  }

  // ---------------------------------------------------------------------------
  // s.replace(c, '')

  /** `s.replace(c, '')`: every `c` deleted, so none is left. */
  function RemoveChar(s: string, c: char): (r: string)
    ensures c !in r
    ensures |r| <= |s|
    decreases |s|
  {
    if |s| == 0 then ""
    else (if s[0] == c then "" else [s[0]]) + RemoveChar(s[1..], c)
  }

  /** Every character other than `c` keeps its number of occurrences. */
  lemma {:induction false} RemoveCharCounts(s: string, c: char)
    ensures multiset(RemoveChar(s, c)) == multiset(s)[c := 0]
    decreases |s|
  {
    if |s| > 0 {
      RemoveCharCounts(s[1..], c);
      assert s == [s[0]] + s[1..];
    }
  }

  /** Deleting a character commutes with concatenation. */
  lemma {:induction false} RemoveCharAppend(a: string, b: string, c: char)
    ensures RemoveChar(a + b, c) == RemoveChar(a, c) + RemoveChar(b, c)
    decreases |a|
  {
    if |a| == 0 {
      assert a + b == b;
    } else {
      var head := if a[0] == c then "" else [a[0]];
      var ab := a + b;
      assert ab[0] == a[0] && ab[1..] == a[1..] + b;
      RemoveCharAppend(a[1..], b, c);
      var x, y := RemoveChar(a[1..], c), RemoveChar(b, c);
      calc {
        RemoveChar(ab, c);
        head + RemoveChar(a[1..] + b, c);
        head + (x + y);
        { assert head + (x + y) == (head + x) + y; }
        (head + x) + y;
        RemoveChar(a, c) + y;
      }
    }
  }

  /** A text without the character is left as it is. */
  lemma {:induction false} RemoveCharAbsent(s: string, c: char)
    requires c !in s
    ensures RemoveChar(s, c) == s
    decreases |s|
  {
    if |s| > 0 {
      RemoveCharAbsent(s[1..], c);
      assert s == [s[0]] + s[1..];
    }
  }

  /** Deleting a character twice is deleting it once. */
  lemma {:induction false} RemoveCharIdempotent(s: string, c: char)
    ensures RemoveChar(RemoveChar(s, c), c) == RemoveChar(s, c)
  {
    RemoveCharAbsent(RemoveChar(s, c), c);
  }

  /** Reference definition: `s.replace(c, '')` is `''.join(s.split(c))`, so the
      characters other than `c` are kept in their order. */
  lemma {:induction false} RemoveCharIsConcatOfSplit(s: string, c: char)
    ensures RemoveChar(s, c) == Concat(Split(s, c))
    decreases |s|
  {
    if |s| > 0 {
      RemoveCharIsConcatOfSplit(s[1..], c);
      var rest := Split(s[1..], c);
      if s[0] == c {
        assert ([""] + rest)[1..] == rest;
      } else {
        var q := [[s[0]] + rest[0]] + rest[1..];
        assert q[1..] == rest[1..];
        assert Concat(rest) == rest[0] + Concat(rest[1..]);
      }
    }
  }

  // ---------------------------------------------------------------------------
  // s.strip()

  /** `s.lstrip()`. */
  function TrimStart(s: string): string
    decreases |s|
  {
    if |s| > 0 && IsSpace(s[0]) then TrimStart(s[1..]) else s
  }

  /** `lstrip` of text followed by a non-space character: only the text's own
      leading whitespace goes. */
  lemma {:induction false} TrimStartAppend(a: string, x: string)
    requires x != [] && !IsSpace(x[0])
    ensures TrimStart(a + x) == TrimStart(a) + x
    decreases |a|
  {
    if |a| == 0 {
      assert a + x == x;
    } else {
      assert (a + x)[0] == a[0] && (a + x)[1..] == a[1..] + x;
      if IsSpace(a[0]) {
        TrimStartAppend(a[1..], x);
      }
    }
  }

  /** `lstrip` adds no character. */
  lemma {:induction false} TrimStartKeepsAbsent(s: string, c: char)
    requires c !in s
    ensures c !in TrimStart(s)
    decreases |s|
  {
    if |s| > 0 && IsSpace(s[0]) {
      TrimStartKeepsAbsent(s[1..], c);
    }
  }

  /** `s.rstrip()`. */
  function TrimEnd(s: string): string
    decreases |s|
  {
    if |s| > 0 && IsSpace(s[|s| - 1]) then TrimEnd(s[..|s| - 1]) else s
  }

  /** `lstrip` drops a whitespace prefix and stops at the first other character. */
  lemma {:induction false} TrimStartFacts(s: string)
    ensures var r := TrimStart(s);
            && |r| <= |s| && r == s[|s| - |r|..]
            && (forall i :: 0 <= i < |s| - |r| ==> IsSpace(s[i]))
            && (r != [] ==> !IsSpace(r[0]))
    decreases |s|
  {
    if |s| > 0 && IsSpace(s[0]) {
      TrimStartFacts(s[1..]);
    }
  }

  /** `rstrip` drops a whitespace suffix and stops at the last other character. */
  lemma {:induction false} TrimEndFacts(s: string)
    ensures var r := TrimEnd(s);
            && |r| <= |s| && r == s[..|r|]
            && (forall i :: |r| <= i < |s| ==> IsSpace(s[i]))
            && (r != [] ==> !IsSpace(r[|r| - 1]))
    decreases |s|
  {
    if |s| > 0 && IsSpace(s[|s| - 1]) {
      TrimEndFacts(s[..|s| - 1]);
    }
  }

  /** Text ending in a non-space character is its own `rstrip`. */
  lemma TrimEndAppend(a: string, x: string)
    requires x != [] && !IsSpace(x[|x| - 1])
    ensures TrimEnd(a + x) == a + x
  {
    assert (a + x)[|a + x| - 1] == x[|x| - 1];
  }

  /** `r` is the infix of `s` at offset `a`, and everything of `s` around it is
      whitespace. */
  predicate InfixAmidSpace(s: string, a: nat, r: string) {
    && a + |r| <= |s|
    && r == s[a..a + |r|]
    && (forall i :: 0 <= i < a ==> IsSpace(s[i]))
    && (forall i :: a + |r| <= i < |s| ==> IsSpace(s[i]))
  }

  /** Text that neither starts nor ends with whitespace, as `strip()` leaves
      it. */
  predicate Trimmed(s: string) {
    s != [] && !IsSpace(s[0]) && !IsSpace(s[|s| - 1])
  }

  /** `s.strip()`. */
  function Strip(s: string): string
  {
    TrimEnd(TrimStart(s))
  }

  /** `s.strip()` is the infix of `s` left after the leading and trailing
      whitespace, and it neither starts nor ends with whitespace. */
  lemma StripIsInfix(s: string)
    ensures var r := Strip(s);
            && (r != [] ==> Trimmed(r))
            && exists a :: InfixAmidSpace(s, a, r)
  {
    var t := TrimStart(s);
    var r := TrimEnd(t);
    TrimStartFacts(s);
    TrimEndFacts(t);
    if r != [] {
      assert r[0] == t[0];
    }
    TrimsAreInfix(s, t, r);
  }

  /** A whitespace prefix dropped from `s`, then a whitespace suffix dropped
      from the rest, leave an infix of `s` amid whitespace. */
  lemma TrimsAreInfix(s: string, t: string, r: string)
    requires |t| <= |s| && t == s[|s| - |t|..]
    requires forall i :: 0 <= i < |s| - |t| ==> IsSpace(s[i])
    requires |r| <= |t| && r == t[..|r|]
    requires forall i :: |r| <= i < |t| ==> IsSpace(t[i])
    ensures InfixAmidSpace(s, |s| - |t|, r)
  {
    var a := |s| - |t|;
    assert r == s[a..a + |r|];
    forall i | a + |r| <= i < |s|
      ensures IsSpace(s[i])
    {
      assert s[i] == t[i - a];
    }
  }

  /** An infix amid whitespace that neither starts nor ends with whitespace
      is the strip: the two properties of `StripIsInfix` determine it. */
  lemma StripIsUnique(s: string, a: nat, r: string)
    requires InfixAmidSpace(s, a, r)
    requires r != [] ==> Trimmed(r)
    ensures r == Strip(s)
  {
    StripIsInfix(s);
    var q := Strip(s);
    var b: nat :| InfixAmidSpace(s, b, q);
    if r != [] {
      assert !IsSpace(s[a]) && !IsSpace(s[a + |r| - 1]);
      if q != [] {
        assert !IsSpace(s[b]) && !IsSpace(s[b + |q| - 1]);
        assert a == b;
        assert a + |r| == b + |q|;
      }
    }
  }

  /** `strip()` removes only whitespace: any other character occurs in the
      stripped text exactly when it occurs in the text. */
  lemma StripKeepsNonSpace(s: string, c: char)
    requires !IsSpace(c)
    ensures c in Strip(s) <==> c in s
  {
    StripIsInfix(s);
    var r := Strip(s);
    var a: nat :| InfixAmidSpace(s, a, r);
    if c in s {
      var i :| 0 <= i < |s| && s[i] == c;
      assert !IsSpace(s[i]);
      assert r[i - a] == s[i];
    }
  }

  /** Text that neither starts nor ends with whitespace is its own strip. */
  lemma StripOfTrimmed(s: string)
    requires Trimmed(s)
    ensures Strip(s) == s && Strip([' '] + s) == s
  {
    assert ([' '] + s)[1..] == s;
  }

  /** Stripping a text that ends in a trimmed part removes only the
      whitespace in front: the part is kept whole. */
  lemma StripBeforeTrimmed(head: string, x: string)
    requires Trimmed(x)
    ensures Strip(head + x) == TrimStart(head) + x
  {
    TrimStartAppend(head, x);
    TrimEndAppend(TrimStart(head), x);
  }

  // ---------------------------------------------------------------------------
  // w in s, s.partition(c)[-1]

  /** Python's substring test `w in s`. */
  predicate Contains(s: string, w: string)
    decreases |s|
  {
    (|w| <= |s| && s[..|w|] == w) || (|s| > 0 && Contains(s[1..], w))
  }

  /** A word placed anywhere in a text is contained in it. */
  lemma {:induction false} ContainsInfix(a: string, w: string, b: string)
    ensures Contains(a + w + b, w)
    decreases |a|
  {
    var s := a + w + b;
    if |a| == 0 {
      assert s[..|w|] == w;
    } else {
      ContainsInfix(a[1..], w, b);
      assert s[1..] == a[1..] + w + b;
    }
  }

  /** `w` occurs in `s` at offset `j`. */
  predicate OccursAt(s: string, w: string, j: nat) {
    j + |w| <= |s| && s[j..j + |w|] == w
  }

  /** Reference definition: `w in s` holds exactly when `w` occurs in `s` at
      some offset. */
  lemma ContainsIsInfix(s: string, w: string)
    ensures Contains(s, w) <==> exists j: nat :: OccursAt(s, w, j)
  {
    if Contains(s, w) {
      ContainsOccurs(s, w);
    }
    if exists j: nat :: OccursAt(s, w, j) {
      var j: nat :| OccursAt(s, w, j);
      OccursContains(s, w, j);
    }
  }

  /** A contained word occurs at some offset. */
  lemma {:induction false} ContainsOccurs(s: string, w: string)
    requires Contains(s, w)
    ensures exists j: nat :: OccursAt(s, w, j)
    decreases |s|
  {
    if |w| <= |s| && s[..|w|] == w {
      assert OccursAt(s, w, 0);
    } else {
      ContainsOccurs(s[1..], w);
      var j: nat :| OccursAt(s[1..], w, j);
      assert s[j + 1..j + 1 + |w|] == s[1..][j..j + |w|];
      assert OccursAt(s, w, j + 1);
    }
  }

  /** A word occurring at some offset is contained. */
  lemma {:induction false} OccursContains(s: string, w: string, j: nat)
    requires OccursAt(s, w, j)
    ensures Contains(s, w)
    decreases j
  {
    if j > 0 {
      assert s[1..][j - 1..j - 1 + |w|] == s[j..j + |w|];
      OccursContains(s[1..], w, j - 1);
    }
  }

  /** A text lacking the word's `i`-th character from position `i` on does
      not hold the word. */
  lemma MissingLetterNotContained(s: string, w: string, i: nat)
    requires i < |w|
    requires forall k :: i <= k < |s| ==> s[k] != w[i]
    ensures !Contains(s, w)
  {
    ContainsIsInfix(s, w);
    forall j: nat | j + |w| <= |s|
      ensures !OccursAt(s, w, j)
    {
      assert s[j..j + |w|][i] == s[j + i];
    }
  }

  /** Every character of a contained word occurs in the text. */
  lemma {:induction false} ContainsChars(s: string, w: string)
    requires Contains(s, w)
    ensures forall k :: 0 <= k < |w| ==> w[k] in s
    decreases |s|
  {
    if |w| <= |s| && s[..|w|] == w {
      forall k | 0 <= k < |w| ensures w[k] in s {
        assert s[k] == w[k];
      }
    } else {
      ContainsChars(s[1..], w);
      forall k | 0 <= k < |w| ensures w[k] in s {
        assert w[k] in s[1..];
      }
    }
  }

  /** `s.partition(c)[-1]`: the text after the first `c`, or `""` when there
      is none. */
  function AfterFirst(s: string, c: char): (r: string)
    ensures c !in s ==> r == ""
    ensures |r| <= |s|
    decreases |s|
  {
    if |s| == 0 then ""
    else if s[0] == c then s[1..]
    else AfterFirst(s[1..], c)
  }

  /** The first `c` found at `i` fixes what `partition` returns: the text
      after it. */
  lemma {:induction false} AfterFirstAt(s: string, i: nat, c: char)
    requires i < |s| && s[i] == c && c !in s[..i]
    ensures AfterFirst(s, c) == s[i + 1..]
    decreases i
  {
    if i > 0 {
      assert s[0] == s[..i][0];
      assert s[1..][..i - 1] == s[1..i] && s[1..i] == s[..i][1..];
      AfterFirstAt(s[1..], i - 1, c);
      assert s[1..][i..] == s[i + 1..];
    }
  }
}
