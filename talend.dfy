/** The per-column part of `generate_xml`: each `[name, type]` pair is checked,
    its type keyword is looked up in the Talend type table, and the length and
    precision attributes are chosen. Writing the XML file is not modelled; the
    records that would be written are the result. */
module TalendSchema {
  import opened Results
  import opened PyStrings

  /** `talend_type`: the recognised Teradata types and their Talend types. */
  const TalendType: map<string, string> := map[
    "CHAR" := "id_String",
    "VARCHAR" := "id_String",
    "CLOB" := "id_String",
    "JSON" := "id_String",
    "SMALLINT" := "id_Integer",
    "INTEGER" := "id_Integer",
    "BIGINT" := "id_Integer",
    "DECIMAL" := "id_Float",
    "DATE" := "id_Date",
    "TIMESTAMP" := "id_String"
  ]

  /** What one `<column .../>` element carries. */
  datatype ColumnRecord = ColumnRecord(
    name: string,        // label and originalDbColumnName
    columnType: string,  // type
    talendType: string,  // talendType
    size: string,        // length
    precision: string)   // precision

  /** The places where `generate_xml` calls `exit(1)`. */
  datatype SchemaError =
    | TooFewElements(column: seq<string>)  // a column list shorter than 2
    | UnknownType(columnType: string)      // KeyError on `talend_type`
    | MalformedDecimal(declaration: string) // IndexError on the DECIMAL arguments

  /** `get_column_type_size`: delete every `)`, then split on `(`. */
  function ColumnTypeSize(columnData: string): (r: seq<string>)
    ensures |r| >= 1
  {
    Split(RemoveChar(columnData, ')'), '(')
  }

  /** The pieces of `get_column_type_size` hold no parenthesis, there is one
      more piece than `(` characters, and joining them with `(` gives the
      declaration without its `)`. */
  lemma ColumnTypeSizeFacts(columnData: string)
    ensures var r := ColumnTypeSize(columnData);
            && |r| == multiset(columnData)['('] + 1
            && (forall k :: 0 <= k < |r| ==> '(' !in r[k] && ')' !in r[k])
            && Join(r, '(') == RemoveChar(columnData, ')')
  {
    var withoutClose := RemoveChar(columnData, ')');
    RemoveCharCounts(columnData, ')');
    SplitFacts(withoutClose, '(');
    SplitKeepsAbsent(withoutClose, '(', ')');
    JoinSplit(withoutClose, '(');
  }

  /** One iteration of the column loop of `generate_xml`: the record for one
      `[name, type]` list, or the reason the script exits. */
  function ClassifyColumn(column: seq<string>): (r: Result<ColumnRecord, SchemaError>)
    ensures |column| < 2 ==> r == Err(TooFewElements(column))
    ensures r.Ok? ==> && |column| >= 2 && r.value.name == column[0]
                      && r.value.columnType in TalendType
                      && r.value.talendType == TalendType[r.value.columnType]
  {
    if |column| < 2 then Err(TooFewElements(column))
    else
      var columnName := column[0];
      var columnDetails := ColumnTypeSize(column[1]);
      var columnType := columnDetails[0];
      if columnType !in TalendType then Err(UnknownType(columnType))
      else if columnType == "DECIMAL" then
        if |columnDetails| < 2 then Err(MalformedDecimal(column[1]))
        else
          var arguments := Split(columnDetails[1], ',');
          if |arguments| < 2 then Err(MalformedDecimal(column[1]))
          else Ok(ColumnRecord(columnName, columnType, TalendType[columnType], "", arguments[1]))
      else
        var columnSize := if |columnDetails| > 1 then columnDetails[1] else "";
        Ok(ColumnRecord(columnName, columnType, TalendType[columnType], columnSize, ""))
  }

  /** The type keyword is the declaration's text (without `)`) before its
      first `(`: it is an `UnknownType` error exactly when the table lacks it,
      and a classified column records it with its Talend type. */
  lemma ClassifyColumnKeyword(column: seq<string>, keyword: string)
    requires |column| >= 2 && LeadsUpTo(RemoveChar(column[1], ')'), keyword, '(')
    ensures var r := ClassifyColumn(column);
            && (keyword !in TalendType <==> r == Err(UnknownType(keyword)))
            && (r.Ok? ==> r.value.columnType == keyword && r.value.talendType == TalendType[keyword])
  {
    FirstPieceIs(RemoveChar(column[1], ')'), '(', keyword);
  }

  /** The attributes of a classified column: the type keyword is the
      declaration's text (without `)`) before its first `(`; DECIMAL keeps
      only a precision free of parentheses and commas, every other type only a
      size free of parentheses. */
  lemma ClassifyColumnAttributes(column: seq<string>)
    requires ClassifyColumn(column).Ok?
    ensures var r := ClassifyColumn(column).value;
            && |column| >= 2
            && (var t := RemoveChar(column[1], ')');
                && r.columnType <= t && '(' !in r.columnType
                && (|r.columnType| < |t| ==> t[|r.columnType|] == '('))
            && (r.columnType == "DECIMAL" ==>
                  && r.size == ""
                  && '(' !in r.precision && ')' !in r.precision && ',' !in r.precision)
            && (r.columnType != "DECIMAL" ==>
                  r.precision == "" && '(' !in r.size && ')' !in r.size)
  {
    var columnDetails := ColumnTypeSize(column[1]);
    ColumnTypeSizeFacts(column[1]);
    TypeIsTextBeforeParen(columnDetails);
    if |columnDetails| >= 2 {
      SplitFacts(columnDetails[1], ',');
      SplitKeepsAbsent(columnDetails[1], ',', '(');
      SplitKeepsAbsent(columnDetails[1], ',', ')');
    }
  }

  /** A known type with no `(` at all: DECIMAL has no arguments and the
      script stops; any other type gets empty length and precision. */
  lemma ClassifyUnsized(column: seq<string>, keyword: string)
    requires |column| >= 2 && RemoveChar(column[1], ')') == keyword
    requires keyword in TalendType
    ensures keyword == "DECIMAL" ==> ClassifyColumn(column) == Err(MalformedDecimal(column[1]))
    ensures keyword != "DECIMAL" ==>
              ClassifyColumn(column) == Ok(ColumnRecord(column[0], keyword, TalendType[keyword], "", ""))
  {
    TypeKeysHaveNoParens(keyword);
    FirstPieceIs(keyword, '(', keyword);
  }

  /** A known type other than DECIMAL followed by `(`: the length is the
      text after that `(` up to the next `(` or the end, and the precision is
      empty. */
  lemma ClassifySizeValue(column: seq<string>, keyword: string, size: string)
    requires |column| >= 2
    requires var t := RemoveChar(column[1], ')');
             && LeadsUpTo(t, keyword, '(') && |keyword| < |t|
             && LeadsUpTo(t[|keyword| + 1..], size, '(')
    requires keyword in TalendType && keyword != "DECIMAL"
    ensures ClassifyColumn(column) == Ok(ColumnRecord(column[0], keyword, TalendType[keyword], size, ""))
  {
    var t := RemoveChar(column[1], ')');
    FirstPieceIs(t, '(', keyword);
    FirstPieceIs(t[|keyword| + 1..], '(', size);
  }

  /** `DECIMAL(` whose arguments, up to the next `(` or the end, hold no
      comma: the scale is missing and the script stops. */
  lemma ClassifyDecimalWithoutComma(column: seq<string>, arguments: string)
    requires |column| >= 2
    requires var t := RemoveChar(column[1], ')');
             && LeadsUpTo(t, "DECIMAL", '(') && 7 < |t|
             && LeadsUpTo(t[8..], arguments, '(') && ',' !in arguments
    ensures ClassifyColumn(column) == Err(MalformedDecimal(column[1]))
  {
    var t := RemoveChar(column[1], ')');
    FirstPieceIs(t, '(', "DECIMAL");
    FirstPieceIs(t[8..], '(', arguments);
    FirstPieceIs(arguments, ',', arguments);
  }

  /** `DECIMAL(p,s...` with `p` free of commas and parentheses: the precision
      written is `s`, the text after the first comma up to the next comma,
      `(` or the end, and the length is empty. */
  lemma ClassifyDecimalScale(column: seq<string>, p: string, scale: string)
    requires |column| >= 2
    requires var t := RemoveChar(column[1], ')');
             var k := 9 + |p| + |scale|;
             && "DECIMAL(" + p + "," + scale <= t
             && '(' !in p && ',' !in p && '(' !in scale && ',' !in scale
             && (k == |t| || t[k] == ',' || t[k] == '(')
    ensures ClassifyColumn(column) == Ok(ColumnRecord(column[0], "DECIMAL", "id_Float", "", scale))
  {
    var t := RemoveChar(column[1], ')');
    var u := t[8..];
    var written := p + "," + scale;
    assert t[..7] == "DECIMAL" && t[7] == '(';
    assert written <= u by {
      assert forall j :: 0 <= j < |written| ==> u[j] == ("DECIMAL(" + written)[8 + j];
    }
    assert |written| == |u| || u[|written|] == t[9 + |p| + |scale|];
    FirstPieceIs(t, '(', "DECIMAL");
    DecimalArgumentsAt(u, p, scale);
  }

  /** In the text after `DECIMAL(`, the arguments run to the next `(`; when
      they start `p,s` the second comma-separated argument is `s`. */
  lemma DecimalArgumentsAt(u: string, p: string, scale: string)
    requires p + "," + scale <= u
    requires '(' !in p && ',' !in p && '(' !in scale && ',' !in scale
    requires var k := 1 + |p| + |scale|; k == |u| || u[k] == ',' || u[k] == '('
    ensures var arguments := Split(Split(u, '(')[0], ',');
            |arguments| >= 2 && arguments[1] == scale
  {
    var written := p + "," + scale;
    var arguments := Split(u, '(')[0];
    FirstPieceLeads(u, '(');
    assert '(' !in written;
    assert written <= arguments;
    assert LeadsUpTo(arguments, p, ',') by {
      assert arguments[|p|] == written[|p|];
    }
    var after := arguments[|p| + 1..];
    assert LeadsUpTo(after, scale, ',') by {
      assert scale <= after by {
        assert forall j :: 0 <= j < |scale| ==> after[j] == written[|p| + 1 + j];
      }
      if |scale| < |after| {
        assert after[|scale|] == u[|written|];
      }
    }
    FirstPieceIs(arguments, ',', p);
    FirstPieceIs(after, ',', scale);
  }

  /** `get_column_type_size` deletes every `)` first, so declarations that
      differ only in their `)`s classify alike. */
  lemma ClassifyIgnoresCloseParens(name: string, x: string, y: string)
    requires RemoveChar(x, ')') == RemoveChar(y, ')')
    ensures ClassifyColumn([name, x]).Ok? <==> ClassifyColumn([name, y]).Ok?
    ensures ClassifyColumn([name, x]).Ok? ==> ClassifyColumn([name, x]) == ClassifyColumn([name, y])
  {
    assert ColumnTypeSize(x) == ColumnTypeSize(y);
  }

  /** The last column of a table carries the statement's closing `)`, as in
      `COL2 INTEGER)` or `COL2 VARCHAR(10))`; it is classified as without it. */
  lemma ClassifyLastColumn(name: string, x: string)
    ensures ClassifyColumn([name, x + ")"]).Ok? <==> ClassifyColumn([name, x]).Ok?
    ensures ClassifyColumn([name, x]).Ok? ==> ClassifyColumn([name, x + ")"]) == ClassifyColumn([name, x])
  {
    RemoveCharAppend(x, ")", ')');
    assert RemoveChar(")", ')') == "";
    assert RemoveChar(x, ')') + "" == RemoveChar(x, ')');
    ClassifyIgnoresCloseParens(name, x + ")", x);
  }

  /** `T)` for a type other than DECIMAL, ending the column list: empty length
      and precision. */
  lemma ClassifyBareTypeClosed(name: string, t: string)
    requires t in TalendType && t != "DECIMAL"
    ensures ClassifyColumn([name, t + ")"]) == Ok(ColumnRecord(name, t, TalendType[t], "", ""))
  {
    ClassifyBareType(name, t);
    ClassifyLastColumn(name, t);
  }

  /** `T(n))` for a type other than DECIMAL, ending the column list: `n`
      becomes the length. */
  lemma ClassifySizedTypeClosed(name: string, t: string, n: string)
    requires t in TalendType && t != "DECIMAL"
    requires '(' !in n && ')' !in n
    ensures ClassifyColumn([name, t + "(" + n + "))"]) == Ok(ColumnRecord(name, t, TalendType[t], n, ""))
  {
    var sized := t + "(" + n + ")";
    assert sized + ")" == t + "(" + n + "))";
    ClassifySizedType(name, t, n);
    ClassifyLastColumn(name, sized);
  }

  /** The first piece of a `(`-split is the text before the first `(`. */
  lemma TypeIsTextBeforeParen(parts: seq<string>)
    requires |parts| >= 1
    ensures var t := Join(parts, '(');
            parts[0] <= t && (|parts[0]| < |t| ==> t[|parts[0]|] == '(')
  {
    if |parts| > 1 {
      assert Join(parts, '(') == parts[0] + "(" + Join(parts[1..], '(');
    }
  }

  /** No type keyword of the table holds a parenthesis. */
  lemma TypeKeysHaveNoParens(t: string)
    requires t in TalendType
    ensures '(' !in t && ')' !in t
  {
  }

  /** A declaration without arguments: size and precision stay empty. */
  lemma {:induction false} ClassifyBareType(name: string, t: string)
    requires t in TalendType && t != "DECIMAL"
    ensures ClassifyColumn([name, t]) == Ok(ColumnRecord(name, t, TalendType[t], "", ""))
  {
    TypeKeysHaveNoParens(t);
    BareTypeSplit(t);
  }

  /** `T(n)` for a type other than DECIMAL: `n` becomes the size. */
  lemma {:induction false} ClassifySizedType(name: string, t: string, n: string)
    requires t in TalendType && t != "DECIMAL"
    requires '(' !in n && ')' !in n
    ensures ClassifyColumn([name, t + "(" + n + ")"]) == Ok(ColumnRecord(name, t, TalendType[t], n, ""))
  {
    TypeKeysHaveNoParens(t);
    ClassifySizedArguments(t, n);
  }

  /** `DECIMAL(p,s)`: the scale `s` becomes the precision and the size stays
      empty. */
  lemma {:induction false} ClassifyDecimal(name: string, p: string, q: string)
    requires '(' !in p && ')' !in p && ',' !in p
    requires '(' !in q && ')' !in q && ',' !in q
    ensures ClassifyColumn([name, "DECIMAL(" + p + "," + q + ")"])
            == Ok(ColumnRecord(name, "DECIMAL", "id_Float", "", q))
  {
    var arguments := p + "," + q;
    var declaration := "DECIMAL(" + p + "," + q + ")";
    assert declaration == "DECIMAL" + "(" + arguments + ")";
    TypeKeysHaveNoParens("DECIMAL");
    ClassifySizedArguments("DECIMAL", arguments);
    assert ColumnTypeSize(declaration) == ["DECIMAL", arguments];
    assert Join([p, q], ',') == arguments;
    SplitJoin([p, q], ',');
    assert Split(arguments, ',') == [p, q];
  }

  /** `DECIMAL(p)` lacks the scale: the script stops. */
  lemma {:induction false} ClassifyDecimalWithoutScale(name: string, p: string)
    requires '(' !in p && ')' !in p && ',' !in p
    ensures ClassifyColumn([name, "DECIMAL(" + p + ")"]) == Err(MalformedDecimal("DECIMAL(" + p + ")"))
  {
    var declaration := "DECIMAL(" + p + ")";
    assert declaration == "DECIMAL" + "(" + p + ")";
    TypeKeysHaveNoParens("DECIMAL");
    ClassifySizedArguments("DECIMAL", p);
    assert ColumnTypeSize(declaration) == ["DECIMAL", p];
    SplitJoin([p], ',');
    assert Split(p, ',') == [p];
  }

  /** A bare `DECIMAL` has no arguments at all: the script stops. */
  lemma {:induction false} ClassifyBareDecimal(name: string)
    ensures ClassifyColumn([name, "DECIMAL"]) == Err(MalformedDecimal("DECIMAL"))
  {
    TypeKeysHaveNoParens("DECIMAL");
    BareTypeSplit("DECIMAL");
  }

  /** A declaration without parentheses is its own single piece. */
  lemma BareTypeSplit(t: string)
    requires '(' !in t && ')' !in t
    ensures ColumnTypeSize(t) == [t]
  {
    RemoveCharAbsent(t, ')');
    SplitJoin([t], '(');
  }

  /** `T(a)` with `a` free of parentheses splits into `[T, a]`. */
  lemma ClassifySizedArguments(t: string, a: string)
    requires '(' !in t && ')' !in t && '(' !in a && ')' !in a
    ensures ColumnTypeSize(t + "(" + a + ")") == [t, a]
  {
    var declaration := t + "(" + a + ")";
    var withoutClose := t + "(" + a;
    RemoveLastClose(withoutClose);
    assert declaration == withoutClose + ")";
    assert RemoveChar(declaration, ')') == withoutClose;
    assert Join([t, a], '(') == withoutClose;
    SplitJoin([t, a], '(');
    assert Split(withoutClose, '(') == [t, a];
  }

  lemma RemoveLastClose(x: string)
    requires ')' !in x
    ensures RemoveChar(x + ")", ')') == x
  {
    RemoveCharAbsent(x, ')');
    assert RemoveChar(")", ')') == "";
    RemoveCharAppend(x, ")", ')');
  }

  /** A type keyword outside the table stops the script, whatever follows it. */
  lemma {:induction false} ClassifyUnknownType(name: string, t: string, arguments: string)
    requires t !in TalendType
    requires '(' !in t && ')' !in t && '(' !in arguments && ')' !in arguments
    ensures ClassifyColumn([name, t]) == Err(UnknownType(t))
    ensures ClassifyColumn([name, t + "(" + arguments + ")"]) == Err(UnknownType(t))
  {
    BareTypeSplit(t);
    ClassifySizedArguments(t, arguments);
  }

  // ---------------------------------------------------------------------------
  // The column loop of generate_xml

  /** The records for `columns[i..]`, or the first failure in list order. */
  function ClassifyFrom(columns: seq<seq<string>>, i: nat): (r: Result<seq<ColumnRecord>, SchemaError>)
    requires i <= |columns|
    ensures r.Ok? ==> |r.value| == |columns| - i
    decreases |columns| - i
  {
    if i == |columns| then Ok([])
    else
      var record :- ClassifyColumn(columns[i]);
      Prepend([record], ClassifyFrom(columns, i + 1))
  }

  /** When the loop gets through, it yields one record per column, each the
      column's own classification. */
  lemma {:induction false} ClassifyFromOk(columns: seq<seq<string>>, i: nat)
    requires i <= |columns|
    requires ClassifyFrom(columns, i).Ok?
    ensures |ClassifyFrom(columns, i).value| == |columns| - i
    ensures forall j :: i <= j < |columns| ==>
              ClassifyColumn(columns[j]) == Ok(ClassifyFrom(columns, i).value[j - i])
    decreases |columns| - i
  {
    if i < |columns| {
      var record := ClassifyColumn(columns[i]);
      assert record.Ok?;
      var tail := ClassifyFrom(columns, i + 1);
      assert ClassifyFrom(columns, i) == Prepend([record.value], tail);
      assert tail.Ok?;
      ClassifyFromOk(columns, i + 1);
      var records := ClassifyFrom(columns, i).value;
      assert records == [record.value] + tail.value;
      forall j | i <= j < |columns|
        ensures ClassifyColumn(columns[j]) == Ok(records[j - i])
      {
        if j > i {
          assert records[j - i] == tail.value[j - (i + 1)];
        }
      }
    }
  }

  /** The loop gets through exactly when every column classifies. */
  lemma {:induction false} ClassifyFromAllOk(columns: seq<seq<string>>, i: nat)
    requires i <= |columns|
    ensures ClassifyFrom(columns, i).Ok? <==> forall j :: i <= j < |columns| ==> ClassifyColumn(columns[j]).Ok?
    decreases |columns| - i
  {
    if i < |columns| {
      var record := ClassifyColumn(columns[i]);
      if record.Ok? {
        ClassifyFromAllOk(columns, i + 1);
        assert ClassifyFrom(columns, i) == Prepend([record.value], ClassifyFrom(columns, i + 1));
      } else {
        assert ClassifyFrom(columns, i).Err?;
      }
    }
  }

  /** When the loop stops, it stops at a column that fails, all earlier ones
      having succeeded, with that column's error. */
  lemma {:induction false} ClassifyFromErr(columns: seq<seq<string>>, i: nat)
    requires i <= |columns|
    requires ClassifyFrom(columns, i).Err?
    ensures exists k :: && i <= k < |columns|
                        && ClassifyColumn(columns[k]) == Err(ClassifyFrom(columns, i).error)
                        && forall j :: i <= j < k ==> ClassifyColumn(columns[j]).Ok?
    decreases |columns| - i
  {
    if ClassifyColumn(columns[i]).Ok? {
      ClassifyFromErr(columns, i + 1);
      var k :| && i + 1 <= k < |columns|
               && ClassifyColumn(columns[k]) == Err(ClassifyFrom(columns, i + 1).error)
               && forall j :: i + 1 <= j < k ==> ClassifyColumn(columns[j]).Ok?;
      assert ClassifyFrom(columns, i).error == ClassifyFrom(columns, i + 1).error;
    }
  }

  /** `for column in column_list:` of `generate_xml`, producing the records
      whose elements would be written, or the exit it takes. */
  method GenerateColumns(columnList: seq<seq<string>>) returns (r: Result<seq<ColumnRecord>, SchemaError>)
    ensures r == ClassifyFrom(columnList, 0)
  {
    var records: seq<ColumnRecord> := [];
    var i := 0;
    var all := ClassifyFrom(columnList, 0);
    assert Prepend(records, all) == all by {
      if all.Ok? {
        assert records + all.value == all.value;
      }
    }
    while i < |columnList|
      invariant 0 <= i <= |columnList|
      invariant all == Prepend(records, ClassifyFrom(columnList, i))
    {
      var record := ClassifyColumn(columnList[i]);
      if record.Err? {
        return Err(record.error);
      }
      PrependAssociative(records, [record.value], ClassifyFrom(columnList, i + 1));
      records := records + [record.value];
      i := i + 1;
    }
    assert records + [] == records;
    return Ok(records);
  }
}
