/** Worked cases. First a column list holding a plain column followed by a
    DECIMAL column that the comma split tore in two, as in
    `ID INTEGER NOT NULL, AMOUNT DECIMAL(9,2)`: from the column fragments to
    the column records. Then whole statements, from the text to the columns. */
module Scenarios {
  import opened Results
  import opened PyStrings
  import opened DdlColumns
  import opened TalendSchema

  /** `<amount> DECIMAL(<p>` is torn, and rejoined with `<q>)` it gives the
      name and the whole declaration. */
  lemma TornDeclaration(amount: string, p: string, q: string)
    requires ' ' !in amount && ')' !in amount
    requires ' ' !in p && ')' !in p && ' ' !in q
    ensures IsTornDecimal(amount + " DECIMAL(" + p)
    ensures NameAndType(amount + " DECIMAL(" + p + "," + q + ")")
            == Ok([amount, "DECIMAL(" + p + "," + q + ")"])
  {
    TornFragment(amount, p);
    RejoinedDecimalWords(amount, p, q);
  }

  /** `<amount> DECIMAL(<p>` holds `DECIMAL` and `(` but no `)`. */
  lemma TornFragment(amount: string, p: string)
    requires ')' !in amount && ')' !in p
    ensures IsTornDecimal(amount + " DECIMAL(" + p)
  {
    var torn := amount + " DECIMAL(" + p;
    ContainsInfix(amount + " ", "DECIMAL", "(" + p);
    assert amount + " " + "DECIMAL" + ("(" + p) == torn;
    assert torn[|amount| + 8] == '(';
    assert ')' !in " DECIMAL(";
  }

  /** `<amount> DECIMAL(<p>,<q>)` splits into the name and the declaration. */
  lemma RejoinedDecimalWords(amount: string, p: string, q: string)
    requires ' ' !in amount && ' ' !in p && ' ' !in q
    ensures NameAndType(amount + " DECIMAL(" + p + "," + q + ")")
            == Ok([amount, "DECIMAL(" + p + "," + q + ")"])
  {
    var words := [amount, "DECIMAL(" + p + "," + q + ")"];
    assert ' ' !in "DECIMAL(" && ' ' !in "," && ' ' !in ")";
    assert ' ' !in words[1];
    assert Join(words, ' ') == amount + " DECIMAL(" + p + "," + q + ")";
    NameAndTypeOfWords(words);
  }

  /** The column walk keeps the first two words of the plain declaration and
      rejoins the torn DECIMAL. */
  lemma TornDecimalColumns(words: seq<string>, amount: string, p: string, q: string)
    requires |words| >= 2 && forall k :: 0 <= k < |words| ==> ' ' !in words[k] && '(' !in words[k]
    requires ' ' !in amount && ')' !in amount
    requires ' ' !in p && ')' !in p && ' ' !in q
    ensures ColumnsFrom([Join(words, ' '), amount + " DECIMAL(" + p, q + ")"], 0)
            == Ok([[words[0], words[1]], [amount, "DECIMAL(" + p + "," + q + ")"]])
  {
    var frags := [Join(words, ' '), amount + " DECIMAL(" + p, q + ")"];
    var plain: seq<string> := [words[0], words[1]];
    var decimal: seq<string> := [amount, "DECIMAL(" + p + "," + q + ")"];
    PlainDeclaration(words);
    TornDeclaration(amount, p, q);
    assert frags[1] + "," + frags[2] == amount + " DECIMAL(" + p + "," + q + ")";
    PlainThenTorn(frags, plain, decimal);
  }

  /** Words free of spaces and `(` make a declaration that is not torn and
      gives its first two words. */
  lemma PlainDeclaration(words: seq<string>)
    requires |words| >= 2 && forall k :: 0 <= k < |words| ==> ' ' !in words[k] && '(' !in words[k]
    ensures !IsTornDecimal(Join(words, ' '))
    ensures NameAndType(Join(words, ' ')) == Ok([words[0], words[1]])
  {
    JoinKeepsAbsent(words, ' ', '(');
    NameAndTypeOfWords(words);
  }

  /** A plain fragment followed by a torn one and its tail gives two columns. */
  lemma PlainThenTorn(frags: seq<string>, plain: Column, decimal: Column)
    requires |frags| == 3
    requires !IsTornDecimal(frags[0]) && NameAndType(frags[0]) == Ok(plain)
    requires IsTornDecimal(frags[1]) && NameAndType(frags[1] + "," + frags[2]) == Ok(decimal)
    ensures ColumnsFrom(frags, 0) == Ok([plain, decimal])
  {
    assert ColumnsFrom(frags, 3) == Ok([]);
    assert ColumnsFrom(frags, 1) == Prepend([decimal], ColumnsFrom(frags, 3));
    assert ColumnsFrom(frags, 0) == Prepend([plain], ColumnsFrom(frags, 1));
    assert [plain] + ([decimal] + []) == [plain, decimal];
  }

  /** A plain column followed by a `DECIMAL(p,q)` column: the first record
      carries no length or precision, the second the scale `q` as its
      precision. */
  lemma TornDecimalRecords(name: string, t: string, amount: string, p: string, q: string)
    requires t in TalendType && t != "DECIMAL"
    requires '(' !in p && ')' !in p && ',' !in p
    requires '(' !in q && ')' !in q && ',' !in q
    ensures ClassifyFrom([[name, t], [amount, "DECIMAL(" + p + "," + q + ")"]], 0) == Ok([
              ColumnRecord(name, t, TalendType[t], "", ""),
              ColumnRecord(amount, "DECIMAL", "id_Float", "", q)])
  {
    ClassifyBareType(name, t);
    ClassifyDecimal(amount, p, q);
    TwoRecords([[name, t], [amount, "DECIMAL(" + p + "," + q + ")"]],
               ColumnRecord(name, t, TalendType[t], "", ""),
               ColumnRecord(amount, "DECIMAL", "id_Float", "", q));
  }

  /** Two columns that classify give their two records. */
  lemma TwoRecords(columns: seq<seq<string>>, first: ColumnRecord, second: ColumnRecord)
    requires |columns| == 2
    requires ClassifyColumn(columns[0]) == Ok(first) && ClassifyColumn(columns[1]) == Ok(second)
    ensures ClassifyFrom(columns, 0) == Ok([first, second])
  {
    forall j | 0 <= j < |columns| ensures ClassifyColumn(columns[j]).Ok? {
      assert j == 0 || j == 1;
    }
    ClassifyFromAllOk(columns, 0);
    ClassifyFromOk(columns, 0);
    var records := ClassifyFrom(columns, 0).value;
    assert records == [records[0], records[1]];
  }

  /** End to end: the fragments `<name> <type> ...`, `<amount> DECIMAL(<p>`
      and `<q>)` give a plain record and a float record with precision `q`. */
  lemma TornDecimalTable(words: seq<string>, amount: string, p: string, q: string)
    requires |words| >= 2 && forall k :: 0 <= k < |words| ==> ' ' !in words[k] && '(' !in words[k]
    requires words[1] in TalendType && words[1] != "DECIMAL"
    requires ' ' !in amount && ')' !in amount
    requires ' ' !in p && '(' !in p && ')' !in p && ',' !in p
    requires ' ' !in q && '(' !in q && ')' !in q && ',' !in q
    ensures var columns := ColumnsFrom([Join(words, ' '), amount + " DECIMAL(" + p, q + ")"], 0);
            && columns.Ok?
            && ClassifyFrom(columns.value, 0) == Ok([
                 ColumnRecord(words[0], words[1], TalendType[words[1]], "", ""),
                 ColumnRecord(amount, "DECIMAL", "id_Float", "", q)])
  {
    TornDecimalColumns(words, amount, p, q);
    TornDecimalRecords(words[0], words[1], amount, p, q);
  }

  // ---------------------------------------------------------------------------
  // A whole statement: `<head>(<decl>,<decl>,...` whose column list is closed
  // by a section such as CONSTRAINT ... PRIMARY KEY, or runs to the end

  /** The comma sections of such a statement: the head with the first
      declaration, the other declarations, then the sections of the tail. */
  lemma StatementSections(head: string, decls: seq<string>, tail: string)
    requires ',' !in head && |decls| >= 1
    requires forall k :: 0 <= k < |decls| ==> ',' !in decls[k]
    ensures Split(head + "(" + Join(decls, ',') + "," + tail, ',')
            == [head + "(" + decls[0]] + decls[1..] + Split(tail, ',')
  {
    var xs := [head + "(" + decls[0]] + decls[1..];
    var ys := Split(tail, ',');
    JoinPrefixFirst(head + "(", decls, ',');
    JoinSplit(tail, ',');
    SplitFacts(tail, ',');
    JoinAppend(xs, ys, ',');
    assert head + "(" + Join(decls, ',') + "," + tail == Join(xs, ',') + [','] + Join(ys, ',');
    var pieces := xs + ys;
    forall k | 0 <= k < |pieces| ensures ',' !in pieces[k] {
      if k == 0 {
        assert pieces[0] == head + "(" + decls[0];
      } else if k < |xs| {
        assert pieces[k] == decls[k];
      } else {
        assert pieces[k] == ys[k - |xs|];
      }
    }
    SplitJoin(pieces, ',');
  }

  /** The section `<head>(<decl>` opens the column list, and the stripped text
      after its `(` is the declaration. */
  lemma OpeningSection(head: string, decl: string)
    requires '(' !in head && ')' !in head && ')' !in decl
    requires Trimmed(decl)
    ensures OpensColumnList(head + "(" + decl)
    ensures Strip(AfterFirst(Strip(head + "(" + decl), '(')) == decl
  {
    var x := "(" + decl;
    assert head + "(" + decl == head + x;
    StripBeforeTrimmed(head, x);
    var lead := TrimStart(head);
    assert lead + x == lead + "(" + decl;
    TrimStartKeepsAbsent(head, '(');
    TrimStartKeepsAbsent(head, ')');
    assert (lead + "(" + decl)[|lead|] == '(';
    AfterOpeningParen(lead, decl);
    StripOfTrimmed(decl);
  }

  /** Sections `0..n` that do not close the list, then either the end or a
      section that closes it: the column section holds exactly the first `n`
      sections. */
  lemma ColumnSectionLength(sections: seq<string>, n: nat)
    requires n <= |sections|
    requires forall j :: 0 <= j < n ==> !EndsColumnList(sections[j])
    requires n < |sections| ==> EndsColumnList(sections[n])
    ensures |ColumnSection(sections, 0)| == n
  {
  }

  /** The comma sections of `<head>(<decl>,...,<decl>`. */
  lemma OpenStatementSections(head: string, decls: seq<string>)
    requires ',' !in head && |decls| >= 1
    requires forall k :: 0 <= k < |decls| ==> ',' !in decls[k]
    ensures Split(head + "(" + Join(decls, ','), ',') == [head + "(" + decls[0]] + decls[1..]
  {
    var pieces := [head + "(" + decls[0]] + decls[1..];
    JoinPrefixFirst(head + "(", decls, ',');
    forall k | 0 <= k < |pieces| ensures ',' !in pieces[k] {
      if k > 0 {
        assert pieces[k] == decls[k];
      }
    }
    SplitJoin(pieces, ',');
  }

  /** Sections made of a first section, the other declarations, and then
      nothing or a section that closes the column list: the column section
      from the first section holds the stripped first section and the other
      declarations. */
  lemma StatementColumnSection(first: string, decls: seq<string>, rest: seq<string>, sections: seq<string>)
    requires |decls| >= 1 && sections == [first] + decls[1..] + rest
    requires forall k :: 1 <= k < |decls| ==> Trimmed(decls[k])
    requires !EndsColumnList(first)
    requires forall k :: 1 <= k < |decls| ==> !EndsColumnList(decls[k])
    requires rest != [] ==> EndsColumnList(rest[0])
    ensures var frags := ColumnSection(sections, 0);
            && |frags| == |decls| && frags[0] == Strip(first)
            && forall k :: 1 <= k < |decls| ==> frags[k] == decls[k]
  {
    var n := |decls|;
    forall j | 0 <= j < n ensures !EndsColumnList(sections[j]) {
      if j > 0 {
        assert sections[j] == decls[j];
      }
    }
    if n < |sections| {
      assert sections[n] == rest[0];
    }
    ColumnSectionLength(sections, n);
    var frags := ColumnSection(sections, 0);
    forall k | 1 <= k < n ensures frags[k] == decls[k] {
      assert sections[k] == decls[k];
      StripOfTrimmed(decls[k]);
    }
  }

  /** Sections made of `<head>(<decl>`, the other declarations, and then
      nothing or a section that closes the column list: the column section,
      with its first fragment trimmed, is the list of declarations. */
  lemma StatementFragments(head: string, decls: seq<string>, rest: seq<string>, sections: seq<string>)
    requires '(' !in head && ')' !in head
    requires |decls| >= 1 && sections == [head + "(" + decls[0]] + decls[1..] + rest
    requires forall k :: 0 <= k < |decls| ==> Trimmed(decls[k])
    requires ')' !in decls[0]
    requires !EndsColumnList(head + "(" + decls[0])
    requires forall k :: 1 <= k < |decls| ==> !EndsColumnList(decls[k])
    requires rest != [] ==> EndsColumnList(rest[0])
    ensures TrimFirstFragment(ColumnSection(sections, StartIndex(sections, 0))) == Ok(decls)
  {
    var first := head + "(" + decls[0];
    OpeningSection(head, decls[0]);
    assert StartIndex(sections, 0) == 0;
    StatementColumnSection(first, decls, rest, sections);
    var frags := ColumnSection(sections, 0);
    var trimmed := TrimFirstFragment(frags);
    assert trimmed.value[0] == decls[0];
    assert trimmed.value == decls;
  }

  /** Untorn declarations that all have a space give one column each: the
      first two words of the declaration. */
  lemma DeclarationColumns(decls: seq<string>)
    requires forall k :: 0 <= k < |decls| ==> ' ' in decls[k] && !IsTornDecimal(decls[k])
    ensures var r := ColumnsFrom(decls, 0);
            && r.Ok? && |r.value| == |decls|
            && forall k :: 0 <= k < |decls| ==> NameAndType(decls[k]) == Ok(r.value[k])
  {
    RejoinUntorn(decls, 0);
    assert decls[0..] == decls;
    ColumnsSucceedIff(decls, 0);
    ColumnsAreRejoinedWords(decls, 0);
  }

  /** `parse_columns` on `<head>(<decl>,...,<decl>,<tail>` whose tail opens
      with a section that closes the column list (such as
      `CONSTRAINT PK1 PRIMARY KEY (ID))`): one column per declaration, each
      its first two words, and nothing from the tail. */
  lemma ConstraintTerminatedStatement(head: string, decls: seq<string>, tail: string)
    requires ',' !in head && '(' !in head && ')' !in head
    requires |decls| >= 1
    requires forall k :: 0 <= k < |decls| ==>
               ',' !in decls[k] && Trimmed(decls[k]) && ' ' in decls[k] && !IsTornDecimal(decls[k])
    requires ')' !in decls[0]
    requires !EndsColumnList(head + "(" + decls[0])
    requires forall k :: 1 <= k < |decls| ==> !EndsColumnList(decls[k])
    requires EndsColumnList(Split(tail, ',')[0])
    ensures var r := ParseColumnsSpec(head + "(" + Join(decls, ',') + "," + tail);
            && r.Ok? && |r.value| == |decls|
            && forall k :: 0 <= k < |decls| ==> NameAndType(decls[k]) == Ok(r.value[k])
  {
    var ddl := head + "(" + Join(decls, ',') + "," + tail;
    StatementSections(head, decls, tail);
    StatementFragments(head, decls, Split(tail, ','), Split(ddl, ','));
    DeclarationColumns(decls);
  }

  /** `parse_columns` on `<head>(<decl>,...,<decl>` with no closing section:
      the column list runs to the end of the statement, so the last
      declaration keeps the statement's closing `)`, as in `COL2 INTEGER)`. */
  lemma OpenEndedStatement(head: string, decls: seq<string>)
    requires ',' !in head && '(' !in head && ')' !in head
    requires |decls| >= 1
    requires forall k :: 0 <= k < |decls| ==>
               ',' !in decls[k] && Trimmed(decls[k]) && ' ' in decls[k] && !IsTornDecimal(decls[k])
    requires ')' !in decls[0]
    requires !EndsColumnList(head + "(" + decls[0])
    requires forall k :: 1 <= k < |decls| ==> !EndsColumnList(decls[k])
    ensures var r := ParseColumnsSpec(head + "(" + Join(decls, ','));
            && r.Ok? && |r.value| == |decls|
            && forall k :: 0 <= k < |decls| ==> NameAndType(decls[k]) == Ok(r.value[k])
  {
    var ddl := head + "(" + Join(decls, ',');
    OpenStatementSections(head, decls);
    assert [head + "(" + decls[0]] + decls[1..] + [] == Split(ddl, ',');
    StatementFragments(head, decls, [], Split(ddl, ','));
    DeclarationColumns(decls);
  }
}
