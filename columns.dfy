/** `parse_columns`: cuts a one-line `CREATE TABLE` statement into comma
    sections, finds the column list among them, repairs `DECIMAL(p,s)`
    declarations that the comma split tore in two, and keeps the first two
    space-separated words of each column declaration: `[name, type]`. */
module DdlColumns {
  import opened Results
  import opened PyStrings

  /** The places where the script raises `IndexError`. */
  datatype ParseError =
    | EmptyColumnSection                // `column_section[0]` on an empty list
    | DanglingDecimal(fragment: string) // a torn DECIMAL fragment with no next fragment
    | TooFewTokens(fragment: string)    // `column_details[1]` on a one-word declaration

  /** A column as `parse_columns` returns it: the list `[name, type]`. */
  type Column = seq<string>

  const UniqueIndex: string := "UNIQUE INDEX"

  /** The section opening the column list: after stripping, it has a `(` and
      no `)`. */
  predicate OpensColumnList(section: string) {
    var s := Strip(section);
    '(' in s && ')' !in s
  }

  /** A section closing the column list: it holds both `CONSTRAINT` and
      `PRIMARY KEY`, or it holds every character of `UNIQUE INDEX` (each
      character separately, not the phrase). The raw section is tested. */
  predicate EndsColumnList(section: string) {
    (Contains(section, "CONSTRAINT") && Contains(section, "PRIMARY KEY"))
    || (forall k :: 0 <= k < |UniqueIndex| ==> UniqueIndex[k] in section)
  }

  /** A section holding the phrase `UNIQUE INDEX` closes the column list. */
  lemma UniqueIndexPhraseEnds(section: string)
    requires Contains(section, UniqueIndex)
    ensures EndsColumnList(section)
  {
    ContainsChars(section, UniqueIndex);
  }

  /** The character test is looser than the phrase: the column declaration
      `QUANTITY_INDEX INTEGER` holds every character of `UNIQUE INDEX`
      without the phrase, and closes the column list all the same. */
  lemma UniqueIndexCharactersOnly()
    ensures EndsColumnList("QUANTITY_INDEX INTEGER")
    ensures !Contains("QUANTITY_INDEX INTEGER", UniqueIndex)
  {
    var section := "QUANTITY_INDEX INTEGER";
    assert section[1] == 'U' && section[3] == 'N' && section[5] == 'I';
    assert section[0] == 'Q' && section[12] == 'E' && section[14] == ' ';
    assert section[11] == 'D' && section[13] == 'X';
    assert forall k :: 0 <= k < |UniqueIndex| ==> UniqueIndex[k] in section;
    assert UniqueIndex[3] == 'Q';
    assert forall k :: 3 <= k < |section| ==> section[k] != 'Q';
    MissingLetterNotContained(section, UniqueIndex, 3);
  }

  /** A `DECIMAL(` declaration whose arguments were cut by the comma split. */
  predicate IsTornDecimal(fragment: string) {
    Contains(fragment, "DECIMAL") && '(' in fragment && ')' !in fragment
  }

  // ---------------------------------------------------------------------------
  // Specification of parse_columns, stage by stage

  /** Index where the column list starts, searching from `from`: the first
      opening section, or the last section when none opens (the loop variable
      of an exhausted `for` keeps its last value). */
  function StartIndex(sections: seq<string>, from: nat): (k: nat)
    requires from < |sections|
    ensures from <= k < |sections|
    ensures forall j :: from <= j < k ==> !OpensColumnList(sections[j])
    ensures OpensColumnList(sections[k]) || k == |sections| - 1
    decreases |sections| - from
  {
    if OpensColumnList(sections[from]) || from == |sections| - 1 then from
    else StartIndex(sections, from + 1)
  }

  /** The stripped sections from `from` up to, not including, the first
      closing section (or to the end). */
  function ColumnSection(sections: seq<string>, from: nat): (frags: seq<string>)
    requires from <= |sections|
    ensures from + |frags| <= |sections|
    ensures forall k :: 0 <= k < |frags| ==> frags[k] == Strip(sections[from + k])
    ensures forall j :: from <= j < from + |frags| ==> !EndsColumnList(sections[j])
    ensures from + |frags| < |sections| ==> EndsColumnList(sections[from + |frags|])
    decreases |sections| - from
  {
    if from == |sections| || EndsColumnList(sections[from]) then []
    else [Strip(sections[from])] + ColumnSection(sections, from + 1)
  }

  /** `column_section[0] = column_section[0].partition('(')[-1].strip()`:
      only the first fragment changes, to the stripped text after its first
      `(`; an empty list is an `IndexError`. */
  function TrimFirstFragment(frags: seq<string>): (r: Result<seq<string>, ParseError>)
    ensures r.Err? <==> frags == []
    ensures r.Err? ==> r.error == EmptyColumnSection
    ensures r.Ok? ==> |r.value| == |frags| && r.value[1..] == frags[1..]
    ensures r.Ok? && '(' !in frags[0] ==> r.value[0] == ""
    ensures r.Ok? && '(' in frags[0] ==>
              && (exists a :: InfixAmidSpace(AfterFirst(frags[0], '('), a, r.value[0]))
              && (r.value[0] != [] ==> Trimmed(r.value[0]))
  {
    if frags == [] then Err(EmptyColumnSection)
    else
      StripIsInfix(AfterFirst(frags[0], '('));
      Ok(frags[0 := Strip(AfterFirst(frags[0], '('))])
  }

  /** `[column_details[0], column_details[1]]` of `declaration.split(' ')`,
      or the `IndexError` of a one-word declaration. */
  function NameAndType(declaration: string): (r: Result<Column, ParseError>)
    ensures r.Ok? ==> |r.value| == 2
    ensures r.Err? ==> r.error == TooFewTokens(declaration)
  {
    var details := Split(declaration, ' ');
    if |details| < 2 then Err(TooFewTokens(declaration))
    else Ok([details[0], details[1]])
  }

  /** The declaration needs a space; then neither word holds a space, and the
      two words with the space between them are the whole declaration or are
      followed by a further space. */
  lemma NameAndTypeFacts(declaration: string)
    ensures NameAndType(declaration).Ok? <==> ' ' in declaration
    ensures var r := NameAndType(declaration);
            r.Ok? ==> && ' ' !in r.value[0] && ' ' !in r.value[1]
                      && r.value[0] + " " + r.value[1] <= declaration
                      && (|| r.value[0] + " " + r.value[1] == declaration
                          || r.value[0] + " " + r.value[1] + " " <= declaration)
  {
    var details := Split(declaration, ' ');
    SplitFacts(declaration, ' ');
    if |details| >= 2 {
      JoinSplit(declaration, ' ');
      JoinStartsWithFirstTwo(details, ' ');
    }
  }

  /** The column walk of `parse_columns` from fragment `i` on: a torn DECIMAL
      fragment is rejoined to the next fragment with a comma and the next
      fragment is skipped; every declaration gives its first two words. The
      first failure in fragment order is the result. */
  function ColumnsFrom(frags: seq<string>, i: nat): (r: Result<seq<Column>, ParseError>)
    requires i <= |frags|
    ensures r.Ok? ==> |r.value| <= |frags| - i
    ensures r.Ok? ==> forall k :: 0 <= k < |r.value| ==> |r.value[k]| == 2
    decreases |frags| - i
  {
    if i == |frags| then Ok([])
    else if IsTornDecimal(frags[i]) then
      if i + 1 == |frags| then Err(DanglingDecimal(frags[i]))
      else
        var column :- NameAndType(frags[i] + "," + frags[i + 1]);
        Prepend([column], ColumnsFrom(frags, i + 2))
    else
      var column :- NameAndType(frags[i]);
      Prepend([column], ColumnsFrom(frags, i + 1))
  }

  /** Reference for the repair stage alone: fragments `i..` with every torn
      DECIMAL fragment rejoined to the next one by a comma. */
  function Rejoin(frags: seq<string>, i: nat): Result<seq<string>, ParseError>
    requires i <= |frags|
    decreases |frags| - i
  {
    if i == |frags| then Ok([])
    else if IsTornDecimal(frags[i]) then
      if i + 1 == |frags| then Err(DanglingDecimal(frags[i]))
      else Prepend([frags[i] + "," + frags[i + 1]], Rejoin(frags, i + 2))
    else Prepend([frags[i]], Rejoin(frags, i + 1))
  }

  /** How many merges the walk over fragments `i..` performs. */
  function MergeCount(frags: seq<string>, i: nat): nat
    requires i <= |frags|
    decreases |frags| - i
  {
    if i == |frags| then 0
    else if IsTornDecimal(frags[i]) && i + 1 < |frags| then 1 + MergeCount(frags, i + 2)
    else MergeCount(frags, i + 1)
  }

  /** The repair only puts back the commas the split removed: the repaired
      declarations, joined with commas, are the fragments joined with commas. */
  lemma {:induction false} RejoinRestoresCommas(frags: seq<string>, i: nat)
    requires i <= |frags|
    requires Rejoin(frags, i).Ok?
    ensures Join(Rejoin(frags, i).value, ',') == Join(frags[i..], ',')
    ensures Rejoin(frags, i).value == [] <==> i == |frags|
    decreases |frags| - i
  {
    if i < |frags| {
      assert frags[i..] == [frags[i]] + frags[i + 1..];
      if IsTornDecimal(frags[i]) {
        RejoinRestoresCommas(frags, i + 2);
        assert frags[i + 1..] == [frags[i + 1]] + frags[i + 2..];
        JoinMerged(frags[i], frags[i + 1], Rejoin(frags, i + 2).value, frags[i + 2..], ',');
      } else {
        RejoinRestoresCommas(frags, i + 1);
        JoinCons(frags[i], Rejoin(frags, i + 1).value, ',');
        JoinCons(frags[i], frags[i + 1..], ',');
      }
    }
  }

  /** Merging two pieces with the separator does not change the joined text. */
  lemma JoinMerged(a: string, b: string, rest: seq<string>, tail: seq<string>, d: char)
    requires Join(rest, d) == Join(tail, d) && (rest == [] <==> tail == [])
    ensures Join([a + [d] + b] + rest, d) == Join([a] + ([b] + tail), d)
  {
    JoinCons(a + [d] + b, rest, d);
    JoinCons(b, tail, d);
    JoinCons(a, [b] + tail, d);
  }

  /** Without a torn DECIMAL fragment, the repair changes nothing. */
  lemma {:induction false} RejoinUntorn(frags: seq<string>, i: nat)
    requires i <= |frags|
    requires forall k :: i <= k < |frags| ==> !IsTornDecimal(frags[k])
    ensures Rejoin(frags, i) == Ok(frags[i..])
    decreases |frags| - i
  {
    if i < |frags| {
      RejoinUntorn(frags, i + 1);
      assert frags[i..] == [frags[i]] + frags[i + 1..];
    }
  }

  /** There are as many repaired declarations as fragments, less one per
      merge. */
  lemma {:induction false} RejoinCount(frags: seq<string>, i: nat)
    requires i <= |frags|
    requires Rejoin(frags, i).Ok?
    ensures |Rejoin(frags, i).value| == |frags| - i - MergeCount(frags, i)
    decreases |frags| - i
  {
    if i < |frags| {
      if IsTornDecimal(frags[i]) {
        RejoinCount(frags, i + 2);
      } else {
        RejoinCount(frags, i + 1);
      }
    }
  }

  /** The column walk succeeds exactly when the repair succeeds and every
      repaired declaration has a space. */
  lemma ColumnsSucceedIff(frags: seq<string>, i: nat)
    requires i <= |frags|
    ensures ColumnsFrom(frags, i).Ok? <==>
              && Rejoin(frags, i).Ok?
              && forall k :: 0 <= k < |Rejoin(frags, i).value| ==> ' ' in Rejoin(frags, i).value[k]
  {
    if ColumnsFrom(frags, i).Ok? {
      ColumnsAreRejoinedWords(frags, i);
      var decls := Rejoin(frags, i).value;
      forall k | 0 <= k < |decls| ensures ' ' in decls[k] {
        NameAndTypeFacts(decls[k]);
      }
    } else if Rejoin(frags, i).Ok? && forall k :: 0 <= k < |Rejoin(frags, i).value| ==> ' ' in Rejoin(frags, i).value[k] {
      RejoinedWordsSucceed(frags, i);
    }
  }

  /** A repair whose declarations all have a space lets the column walk
      through. */
  lemma {:induction false} RejoinedWordsSucceed(frags: seq<string>, i: nat)
    requires i <= |frags|
    requires Rejoin(frags, i).Ok?
    requires forall k :: 0 <= k < |Rejoin(frags, i).value| ==> ' ' in Rejoin(frags, i).value[k]
    ensures ColumnsFrom(frags, i).Ok?
    decreases |frags| - i
  {
    if i < |frags| {
      var next := if IsTornDecimal(frags[i]) then i + 2 else i + 1;
      var decl := if IsTornDecimal(frags[i]) then frags[i] + "," + frags[i + 1] else frags[i];
      assert Rejoin(frags, i) == Prepend([decl], Rejoin(frags, next));
      var decls := Rejoin(frags, i).value;
      var rest := Rejoin(frags, next).value;
      assert decls == [decl] + rest;
      assert ' ' in decls[0];
      NameAndTypeFacts(decl);
      forall k | 0 <= k < |rest| ensures ' ' in rest[k] {
        assert decls[k + 1] == rest[k];
      }
      RejoinedWordsSucceed(frags, next);
      assert ColumnsFrom(frags, i) == Prepend([NameAndType(decl).value], ColumnsFrom(frags, next));
    }
  }

  /** When the column walk succeeds, the k-th column is the first two words
      of the k-th repaired declaration. */
  lemma {:induction false} ColumnsAreRejoinedWords(frags: seq<string>, i: nat)
    requires i <= |frags|
    requires ColumnsFrom(frags, i).Ok?
    ensures Rejoin(frags, i).Ok?
    ensures |ColumnsFrom(frags, i).value| == |Rejoin(frags, i).value|
    ensures forall k :: 0 <= k < |Rejoin(frags, i).value| ==>
              NameAndType(Rejoin(frags, i).value[k]) == Ok(ColumnsFrom(frags, i).value[k])
    decreases |frags| - i
  {
    if i < |frags| {
      var next := if IsTornDecimal(frags[i]) then i + 2 else i + 1;
      var decl := if IsTornDecimal(frags[i]) then frags[i] + "," + frags[i + 1] else frags[i];
      var column := NameAndType(decl).value;
      assert ColumnsFrom(frags, i) == Prepend([column], ColumnsFrom(frags, next));
      ColumnsAreRejoinedWords(frags, next);
      assert Rejoin(frags, i) == Prepend([decl], Rejoin(frags, next));
      var decls := Rejoin(frags, i).value;
      var columns := ColumnsFrom(frags, i).value;
      assert decls == [decl] + Rejoin(frags, next).value;
      assert columns == [column] + ColumnsFrom(frags, next).value;
      WordsOfCons(decl, column, Rejoin(frags, next).value, ColumnsFrom(frags, next).value);
    }
  }

  /** Pairing declarations with their columns survives putting one more pair
      in front. */
  lemma WordsOfCons(decl: string, column: Column, decls: seq<string>, columns: seq<Column>)
    requires NameAndType(decl) == Ok(column)
    requires |decls| == |columns|
    requires forall k :: 0 <= k < |decls| ==> NameAndType(decls[k]) == Ok(columns[k])
    ensures forall k :: 0 <= k < |decls| + 1 ==> NameAndType(([decl] + decls)[k]) == Ok(([column] + columns)[k])
  {
    forall k | 0 <= k < |decls| + 1
      ensures NameAndType(([decl] + decls)[k]) == Ok(([column] + columns)[k])
    {
      if k > 0 {
        assert ([decl] + decls)[k] == decls[k - 1];
        assert ([column] + columns)[k] == columns[k - 1];
      }
    }
  }

  /** The fragments the walk from `i` takes a declaration at: every fragment
      it does not skip. */
  function Visits(frags: seq<string>, i: nat): (r: seq<nat>)
    requires i <= |frags|
    ensures forall k :: 0 <= k < |r| ==> i <= r[k] < |frags|
    ensures r != [] <==> i < |frags|
    decreases |frags| - i
  {
    if i == |frags| then []
    else [i] + Visits(frags, if IsTornDecimal(frags[i]) && i + 1 < |frags| then i + 2 else i + 1)
  }

  /** The declaration the walk takes at fragment `m`: the fragment itself, or
      a torn DECIMAL fragment rejoined to the next one; a torn last fragment
      has no next one. */
  function DeclarationAt(frags: seq<string>, m: nat): Result<string, ParseError>
    requires m < |frags|
  {
    if !IsTornDecimal(frags[m]) then Ok(frags[m])
    else if m + 1 == |frags| then Err(DanglingDecimal(frags[m]))
    else Ok(frags[m] + "," + frags[m + 1])
  }

  /** The step at fragment `m` gives a column: its declaration exists and
      has a space. */
  predicate StepPasses(frags: seq<string>, m: nat)
    requires m < |frags|
  {
    DeclarationAt(frags, m).Ok? && ' ' in DeclarationAt(frags, m).value
  }

  /** The step at fragment `m` fails with `e`: a torn DECIMAL fragment with
      nothing after it gives `DanglingDecimal` of it, a declaration without a
      space gives `TooFewTokens` of it. */
  predicate StepFails(frags: seq<string>, m: nat, e: ParseError)
    requires m < |frags|
  {
    var d := DeclarationAt(frags, m);
    if d.Err? then m == |frags| - 1 && IsTornDecimal(frags[m]) && e == DanglingDecimal(frags[m])
    else ' ' !in d.value && e == TooFewTokens(d.value)
  }

  /** The walk skips one fragment per merge: it visits the others. */
  lemma {:induction false} VisitsCount(frags: seq<string>, i: nat)
    requires i <= |frags|
    ensures |Visits(frags, i)| == |frags| - i - MergeCount(frags, i)
    decreases |frags| - i
  {
    if i < |frags| {
      if IsTornDecimal(frags[i]) && i + 1 < |frags| {
        VisitsCount(frags, i + 2);
      } else {
        VisitsCount(frags, i + 1);
      }
    }
  }

  /** A successful repair is the declarations taken at the visited
      fragments, in order. */
  lemma {:induction false} RejoinIsVisitedDeclarations(frags: seq<string>, i: nat)
    requires i <= |frags|
    requires Rejoin(frags, i).Ok?
    ensures |Rejoin(frags, i).value| == |Visits(frags, i)|
    ensures forall k :: 0 <= k < |Visits(frags, i)| ==>
              DeclarationAt(frags, Visits(frags, i)[k]) == Ok(Rejoin(frags, i).value[k])
    decreases |frags| - i
  {
    if i < |frags| {
      var next := if IsTornDecimal(frags[i]) && i + 1 < |frags| then i + 2 else i + 1;
      var visits := Visits(frags, i);
      var rest := Visits(frags, next);
      assert visits == [i] + rest;
      assert Rejoin(frags, i) == Prepend([DeclarationAt(frags, i).value], Rejoin(frags, next));
      RejoinIsVisitedDeclarations(frags, next);
      var decls := Rejoin(frags, i).value;
      assert decls == [DeclarationAt(frags, i).value] + Rejoin(frags, next).value;
      forall k | 0 <= k < |visits|
        ensures DeclarationAt(frags, visits[k]) == Ok(decls[k])
      {
        if k > 0 {
          assert visits[k] == rest[k - 1] && decls[k] == Rejoin(frags, next).value[k - 1];
        }
      }
    }
  }

  /** The walk at fragment `i` either fails there, or passes on to the next
      visited fragment with the same outcome. */
  lemma WalkStep(frags: seq<string>, i: nat)
    requires i < |frags|
    requires ColumnsFrom(frags, i).Err?
    ensures var next := if IsTornDecimal(frags[i]) && i + 1 < |frags| then i + 2 else i + 1;
            if StepPasses(frags, i) then ColumnsFrom(frags, next) == ColumnsFrom(frags, i)
            else StepFails(frags, i, ColumnsFrom(frags, i).error)
  {
    var d := DeclarationAt(frags, i);
    if d.Ok? {
      NameAndTypeFacts(d.value);
    }
  }

  /** Among the visited fragments `visits`, the `k`-th is the first whose
      step fails, and it fails with `e`. */
  predicate FirstFailure(frags: seq<string>, visits: seq<nat>, k: nat, e: ParseError)
    requires forall j :: 0 <= j < |visits| ==> visits[j] < |frags|
  {
    && k < |visits|
    && (forall j :: 0 <= j < k ==> StepPasses(frags, visits[j]))
    && StepFails(frags, visits[k], e)
  }

  /** A failing walk fails at the first visited fragment whose step fails,
      every earlier step having given a column. */
  lemma {:induction false} ColumnsFromErr(frags: seq<string>, i: nat)
    requires i <= |frags|
    requires ColumnsFrom(frags, i).Err?
    ensures exists k :: FirstFailure(frags, Visits(frags, i), k, ColumnsFrom(frags, i).error)
    decreases |frags| - i
  {
    var visits := Visits(frags, i);
    var e := ColumnsFrom(frags, i).error;
    var next := if IsTornDecimal(frags[i]) && i + 1 < |frags| then i + 2 else i + 1;
    var rest := Visits(frags, next);
    assert visits == [i] + rest;
    WalkStep(frags, i);
    if StepPasses(frags, i) {
      ColumnsFromErr(frags, next);
      var k: nat :| FirstFailure(frags, rest, k, e);
      assert k < |rest| && StepFails(frags, rest[k], e);
      forall j | 0 <= j < k + 1
        ensures StepPasses(frags, visits[j])
      {
        if j > 0 {
          assert visits[j] == rest[j - 1];
        }
      }
      assert visits[k + 1] == rest[k];
      assert FirstFailure(frags, visits, k + 1, e);
    } else {
      assert FirstFailure(frags, visits, 0, e);
    }
  }

  /** One column per fragment, less one per merge. */
  lemma {:induction false} ColumnCount(frags: seq<string>, i: nat)
    requires i <= |frags|
    requires ColumnsFrom(frags, i).Ok?
    ensures |ColumnsFrom(frags, i).value| == |frags| - i - MergeCount(frags, i)
    decreases |frags| - i
  {
    if i < |frags| {
      if IsTornDecimal(frags[i]) {
        ColumnCount(frags, i + 2);
      } else {
        ColumnCount(frags, i + 1);
      }
    }
  }

  /** What `parse_columns(ddl)` returns, or the error it raises. */
  function ParseColumnsSpec(ddl: string): (r: Result<seq<Column>, ParseError>)
    ensures r.Ok? ==> forall k :: 0 <= k < |r.value| ==> |r.value[k]| == 2
  {
    var sections := Split(ddl, ',');
    var start := StartIndex(sections, 0);
    var frags :- TrimFirstFragment(ColumnSection(sections, start));
    ColumnsFrom(frags, 0)
  }

  /** A declaration written as words separated by single spaces gives its
      first two words. */
  lemma NameAndTypeOfWords(words: seq<string>)
    requires |words| >= 2
    requires forall k :: 0 <= k < |words| ==> ' ' !in words[k]
    ensures NameAndType(Join(words, ' ')) == Ok([words[0], words[1]])
  {
    SplitJoin(words, ' ');
  }

  /** A first fragment `prefix(declaration` keeps only the declaration when
      `prefix` holds no `(` and the declaration is already stripped. */
  lemma TrimFirstFragmentAt(prefix: string, declaration: string, rest: seq<string>)
    requires '(' !in prefix
    requires Trimmed(declaration)
    ensures TrimFirstFragment([prefix + "(" + declaration] + rest) == Ok([declaration] + rest)
  {
    var frags := [prefix + "(" + declaration] + rest;
    AfterOpeningParen(prefix, declaration);
    StripOfTrimmed(declaration);
    assert frags[0 := declaration] == [declaration] + rest;
  }

  /** The text after the first `(` of `prefix(declaration`. */
  lemma AfterOpeningParen(prefix: string, declaration: string)
    requires '(' !in prefix
    ensures AfterFirst(prefix + "(" + declaration, '(') == declaration
  {
    var first := prefix + "(" + declaration;
    assert first[..|prefix|] == prefix;
    AfterFirstAt(first, |prefix|, '(');
    assert first[|prefix| + 1..] == declaration;
  }

  /** When no section opens the column list, the search falls back to the last
      section; if that one has no `(` either and does not close the list, its
      first fragment becomes empty and the first column has no type. A column
      list opened on the CREATE TABLE line together with a sized type, as in
      `CREATE TABLE T (C VARCHAR(5), D INTEGER)`, is rejected this way. */
  lemma NoOpeningSectionFails(ddl: string)
    requires var sections := Split(ddl, ',');
             && (forall k :: 0 <= k < |sections| ==> !OpensColumnList(sections[k]))
             && '(' !in sections[|sections| - 1]
             && !EndsColumnList(sections[|sections| - 1])
    ensures ParseColumnsSpec(ddl) == Err(TooFewTokens(""))
  {
    var sections := Split(ddl, ',');
    var last := |sections| - 1;
    assert StartIndex(sections, 0) == last;
    var fragment := Strip(sections[last]);
    assert ColumnSection(sections, last) == [fragment];
    StripKeepsNonSpace(sections[last], '(');
    var r := TrimFirstFragment([fragment]);
    assert |r.value| == 1 && r.value[0] == "";
    assert r.value == [""];
    assert !IsTornDecimal("");
  }

  // ---------------------------------------------------------------------------
  // parse_columns itself: its three loops, then the whole function

  /** The `for`/`break` search for the first opening section. When the loop
      runs out, `section_index` keeps its last value; on an empty list it keeps
      its initial 0. */
  method FindColumnListStart(sections: seq<string>) returns (sectionIndex: nat)
    ensures |sections| == 0 ==> sectionIndex == 0
    ensures |sections| > 0 ==> sectionIndex == StartIndex(sections, 0)
  {
    sectionIndex := 0;
    var i := 0;
    while i < |sections|
      invariant 0 <= i <= |sections|
      invariant sectionIndex == if i == 0 then 0 else i - 1
      invariant forall j :: 0 <= j < i ==> !OpensColumnList(sections[j])
    {
      sectionIndex := i;
      var section := Strip(sections[i]);
      if '(' in section && ')' !in section {
        break;
      }
      i := i + 1;
    }
  }

  /** The loop appending stripped sections to `column_section` until a section
      closes the column list. */
  method CollectColumnSection(sections: seq<string>, sectionIndex: nat) returns (columnSection: seq<string>)
    requires sectionIndex <= |sections|
    ensures columnSection == ColumnSection(sections, sectionIndex)
  {
    columnSection := [];
    var columnIndex := sectionIndex;
    while columnIndex < |sections|
      invariant sectionIndex <= columnIndex <= |sections|
      invariant |columnSection| == columnIndex - sectionIndex
      invariant forall k :: 0 <= k < |columnSection| ==>
                  columnSection[k] == Strip(sections[sectionIndex + k])
      invariant forall j :: sectionIndex <= j < columnIndex ==> !EndsColumnList(sections[j])
    {
      var section := sections[columnIndex];
      if Contains(section, "CONSTRAINT") && Contains(section, "PRIMARY KEY") {
        break;
      } else if forall k :: 0 <= k < |UniqueIndex| ==> UniqueIndex[k] in section {
        break;
      } else {
        columnSection := columnSection + [Strip(section)];
      }
      columnIndex := columnIndex + 1;
    }
    CollectedPrefix(sections, sectionIndex, columnSection);
  }

  /** A column produced at fragment `i`, with the walk resuming at `next`,
      extends the columns collected so far. */
  lemma AppendColumn(frags: seq<string>, columnList: seq<Column>, column: Column, i: nat, next: nat)
    requires i < next <= |frags|
    requires ColumnsFrom(frags, 0) == Prepend(columnList, ColumnsFrom(frags, i))
    requires ColumnsFrom(frags, i) == Prepend([column], ColumnsFrom(frags, next))
    ensures ColumnsFrom(frags, 0) == Prepend(columnList + [column], ColumnsFrom(frags, next))
  {
    PrependAssociative(columnList, [column], ColumnsFrom(frags, next));
  }

  /** The body of the walk at a fragment that is not skipped: a torn DECIMAL
      fragment is merged with the next one (an `IndexError` when there is
      none), any other fragment is taken on its own. `merged` tells whether
      the next fragment was consumed. */
  method TakeColumn(frags: seq<string>, i: nat) returns (column: Result<Column, ParseError>, merged: bool)
    requires i < |frags|
    ensures merged == IsTornDecimal(frags[i])
    ensures column.Ok? ==> i + (if merged then 2 else 1) <= |frags|
    ensures column.Err? ==> ColumnsFrom(frags, i) == Err(column.error)
    ensures column.Ok? ==> ColumnsFrom(frags, i) == Prepend([column.value], ColumnsFrom(frags, i + (if merged then 2 else 1)))
  {
    var fragment := frags[i];
    merged := IsTornDecimal(fragment);
    if merged {
      if i + 1 == |frags| {
        return Err(DanglingDecimal(fragment)), merged;
      }
      column := NameAndType(fragment + "," + frags[i + 1]);
      assert ColumnsFrom(frags, i) == if column.Err? then Err(column.error)
                                      else Prepend([column.value], ColumnsFrom(frags, i + 2));
    } else {
      column := NameAndType(fragment);
      assert ColumnsFrom(frags, i) == if column.Err? then Err(column.error)
                                      else Prepend([column.value], ColumnsFrom(frags, i + 1));
    }
  }

  /** The walk over the fragments with the `skip_index` flag: after a merge,
      the following iteration skips the consumed fragment and resets the
      flag. */
  method BuildColumnList(columnSection: seq<string>) returns (r: Result<seq<Column>, ParseError>)
    ensures r == ColumnsFrom(columnSection, 0)
  {
    var columnList: seq<Column> := [];
    ghost var all := ColumnsFrom(columnSection, 0);
    assert Prepend(columnList, all) == all by {
      if all.Ok? {
        assert columnList + all.value == all.value;
      }
    }
    var skipIndex := false;
    var n := |columnSection|;
    var columnIndex := 0;
    ghost var resume := 0;  // where the walk of `ColumnsFrom` continues
    while columnIndex < n
      invariant 0 <= columnIndex <= n
      invariant resume == if skipIndex then columnIndex + 1 else columnIndex
      invariant resume <= n
      invariant all == Prepend(columnList, ColumnsFrom(columnSection, resume))
    {
      if !skipIndex {
        var column, merged := TakeColumn(columnSection, columnIndex);
        if column.Err? {
          return Err(column.error);
        }
        ghost var next := columnIndex + if merged then 2 else 1;
        AppendColumn(columnSection, columnList, column.value, columnIndex, next);
        columnList := columnList + [column.value];
        skipIndex := merged;
        resume := next;
      } else {
        skipIndex := false;
      }
      columnIndex := columnIndex + 1;
    }
    assert columnList + [] == columnList;
    return Ok(columnList);
  }

  /** `parse_columns(ddl_data)`: the column list, or the `IndexError` it raises. */
  method ParseColumns(ddl: string) returns (r: Result<seq<Column>, ParseError>)
    ensures r == ParseColumnsSpec(ddl)
    ensures r.Ok? ==> forall k :: 0 <= k < |r.value| ==> |r.value[k]| == 2
  {
    var sections := Split(ddl, ',');
    var sectionIndex := FindColumnListStart(sections);
    var columnSection := CollectColumnSection(sections, sectionIndex);
    if |columnSection| == 0 {
      return Err(EmptyColumnSection);
    }
    // The first column may be preceded by a MAP attribute and the '('.
    columnSection := columnSection[0 := Strip(AfterFirst(columnSection[0], '('))];
    r := BuildColumnList(columnSection);
  }

  /** The collection loop's result is the collected column section. */
  lemma {:induction false} CollectedPrefix(sections: seq<string>, from: nat, frags: seq<string>)
    requires from + |frags| <= |sections|
    requires forall k :: 0 <= k < |frags| ==> frags[k] == Strip(sections[from + k])
    requires forall j :: from <= j < from + |frags| ==> !EndsColumnList(sections[j])
    requires from + |frags| < |sections| ==> EndsColumnList(sections[from + |frags|])
    ensures frags == ColumnSection(sections, from)
    decreases |frags|
  {
    if |frags| > 0 {
      assert !EndsColumnList(sections[from]) && frags[0] == Strip(sections[from]);
      forall k | 0 <= k < |frags| - 1
        ensures frags[1..][k] == Strip(sections[from + 1 + k])
      {
        assert frags[1..][k] == frags[k + 1];
      }
      CollectedPrefix(sections, from + 1, frags[1..]);
      assert frags == [frags[0]] + frags[1..];
    }
  }
}
