/** EnumCast: casts into a NumericEnumType and the SQL body of its varchar cast. */
module EnumCast {
  import opened Wrappers
  import opened JavaLang
  import opened Text
  import opened Entries
  import opened NumericEnumTypes

  /** varcharToEnum: the long value of key `value`. */
  function VarcharToEnum(value: string, enumType: NumericEnumType): (r: Result<int64, Throwable>)
    ensures r.Success? <==> IsKey(enumType.entries, value)
    ensures r.Success? ==> MapsTo(enumType.entries, value, r.value)
    ensures r.Failure? ==>
      r.error == PrestoException(InvalidCastArgument, NoKeyMessage(value, Base(enumType)))
  {
    match Get(enumType.entries, value)
    case Some(numericValue) => Success(numericValue)
    case None => Failure(PrestoException(InvalidCastArgument, NoKeyMessage(value, Base(enumType))))
  }

  /** integerToEnum: `value` unchanged when it is one of the enum's values. */
  function IntegerToEnum(value: int64, enumType: NumericEnumType): (r: Result<int64, Throwable>)
    ensures r.Success? <==> IsValue(enumType.entries, value)
    ensures r.Success? ==> r.value == value
    ensures r.Failure? ==>
      r.error == PrestoException(InvalidCastArgument, NoValueMessage(LongToString(value as int), Base(enumType)))
  {
    if !ContainsValue(enumType.entries, value) then
      Failure(PrestoException(InvalidCastArgument, NoValueMessage(LongToString(value as int), Base(enumType))))
    else
      Success(value)
  }

  /** A key cast to the enum passes the integer cast unchanged. */
  lemma VarcharThenIntegerRoundTrip(enumType: NumericEnumType, key: string)
    requires IsKey(enumType.entries, key)
    ensures VarcharToEnum(key, enumType).Success?
    ensures IntegerToEnum(VarcharToEnum(key, enumType).value, enumType) == VarcharToEnum(key, enumType)
  {
    var v := VarcharToEnum(key, enumType).value;
    var i :| 0 <= i < |enumType.entries| && enumType.entries[i].key == key && enumType.entries[i].value == v;
    assert IsValue(enumType.entries, v);
  }

  /** The integer cast applied to its own result gives the same result. */
  lemma IntegerToEnumIdempotent(enumType: NumericEnumType, value: int64)
    ensures IntegerToEnum(value, enumType).Success? ==>
      IntegerToEnum(IntegerToEnum(value, enumType).value, enumType) == IntegerToEnum(value, enumType)
  {
  }

  const CaseHeader := "RETURN CASE input"

  const WhenHead := "  WHEN "
  const ElseHead := "  ELSE FAIL('No key ' || input || ' in enum "

  /** The CASE branch of one entry. */
  function WhenLine(key: string, value: int64): string
  {
    WhenHead + key + " THEN " + LongToString(value as int)
  }

  /** The CASE branch taken when the input is no key. */
  function ElseLine(displayName: string): string
  {
    ElseHead + displayName + "')"
  }

  /** One WHEN branch per entry, in iteration order. */
  function WhenLines(es: seq<Entry<int64>>): seq<string>
  {
    seq(|es|, i requires 0 <= i < |es| => WhenLine(es[i].key, es[i].value))
  }

  /** The newline-terminated lines of the generated SQL: the header, the WHEN
      branches, the ELSE branch. */
  function CaseLines(es: seq<Entry<int64>>, displayName: string): seq<string>
  {
    [CaseHeader] + WhenLines(es) + [ElseLine(displayName)]
  }

  /** The generated SQL: its lines, each ended by a newline, then END. */
  function CaseBodyText(es: seq<Entry<int64>>, displayName: string): string
  {
    JoinLines(CaseLines(es, displayName)) + "END"
  }

  /** One more entry adds its WHEN branch at the end. */
  lemma WhenLinesAppend(es: seq<Entry<int64>>, i: nat)
    requires i < |es|
    ensures [CaseHeader] + WhenLines(es[..i + 1])
            == [CaseHeader] + WhenLines(es[..i]) + [WhenLine(es[i].key, es[i].value)]
  {
    assert WhenLines(es[..i + 1]) == WhenLines(es[..i]) + [WhenLine(es[i].key, es[i].value)];
  }

  /** The routine body that varcharToEnumCastFunction builds, before its final
      String.format. */
  method VarcharToEnumCaseBody(enumType: NumericEnumType) returns (body: string)
    ensures body == CaseBodyText(enumType.entries, DisplayName(enumType))
  {
    var es := enumType.entries;
    body := CaseHeader + "\n";
    assert [CaseHeader] + WhenLines(es[..0]) == [CaseHeader];
    for i := 0 to |es|
      invariant body == JoinLines([CaseHeader] + WhenLines(es[..i]))
    {
      var key := es[i].key;
      GetAt(es, i);
      var value := Get(es, key).value;
      JoinLinesAppend([CaseHeader] + WhenLines(es[..i]), WhenLine(key, value));
      WhenLinesAppend(es, i);
      body := body + WhenLine(key, value) + "\n";
    }
    assert es[..|es|] == es;
    JoinLinesAppend([CaseHeader] + WhenLines(es), ElseLine(DisplayName(enumType)));
    body := body + ElseLine(DisplayName(enumType)) + "\n";
    body := body + "END";
  }

  /** A line that is a WHEN branch of the CASE. */
  predicate IsWhenLine(line: string)
  {
    |line| >= |WhenHead| && line[..|WhenHead|] == WhenHead
  }

  /** The body opens with the CASE header line and closes with the ELSE line and END. */
  lemma {:induction false} CaseBodyFrame(es: seq<Entry<int64>>, displayName: string)
    ensures var body := CaseBodyText(es, displayName);
      var head := CaseHeader + "\n";
      var tail := ElseLine(displayName) + "\nEND";
      && |body| >= |head| + |tail|
      && body[..|head|] == head
      && body[|body| - |tail|..] == tail
  {
    var lines := [CaseHeader] + WhenLines(es);
    var head := CaseHeader + "\n";
    var middle := JoinLines(WhenLines(es));
    var tail := ElseLine(displayName) + "\nEND";
    JoinLinesAppend(lines, ElseLine(displayName));
    assert CaseLines(es, displayName) == lines + [ElseLine(displayName)];
    assert lines[1..] == WhenLines(es);
    assert JoinLines(lines) == head + middle;
    var body := CaseBodyText(es, displayName);
    assert body == head + middle + tail;
    ThreeParts(head, middle, tail);
  }

  /** The first and last parts of a three-part concatenation. */
  lemma ThreeParts(a: string, b: string, c: string)
    ensures (a + b + c)[..|a|] == a
    ensures (a + b + c)[|a + b + c| - |c|..] == c
  {
    var s := a + b + c;
    assert s[..|a|] == a;
    assert s[|a| + |b|..] == c;
  }

  /** A WHEN branch holds a newline only where its key does. */
  lemma WhenLineShape(key: string, value: int64)
    ensures IsWhenLine(WhenLine(key, value))
    ensures '\n' !in key ==> '\n' !in WhenLine(key, value)
  {
    var line := WhenLine(key, value);
    assert line == WhenHead + (key + " THEN " + LongToString(value as int));
    assert '\n' !in WhenHead && '\n' !in " THEN ";
  }

  /** The ELSE branch is no WHEN branch and holds a newline only where the display name does. */
  lemma ElseLineShape(displayName: string)
    ensures !IsWhenLine(ElseLine(displayName))
    ensures '\n' !in displayName ==> '\n' !in ElseLine(displayName)
  {
    var line := ElseLine(displayName);
    assert line == ElseHead + (displayName + "')");
    assert |ElseHead| > |WhenHead| && ElseHead[2] == 'E' && WhenHead[2] == 'W';
    assert '\n' !in ElseHead && '\n' !in "')";
    assert line[2] == 'E';
  }

  /** The header line is no WHEN branch and holds no newline. */
  lemma CaseHeaderShape()
    ensures !IsWhenLine(CaseHeader)
    ensures '\n' !in CaseHeader
  {
    assert CaseHeader[2] == 'T' && WhenHead[2] == 'W';
  }

  /** The lines of the CASE by position: the header, one WHEN branch per entry in
      iteration order, the ELSE branch. */
  lemma CaseLinesIndex(es: seq<Entry<int64>>, displayName: string)
    ensures var ls := CaseLines(es, displayName);
      && |ls| == |es| + 2
      && ls[0] == CaseHeader
      && (forall i :: 0 <= i < |es| ==> ls[i + 1] == WhenLine(es[i].key, es[i].value))
      && ls[|es| + 1] == ElseLine(displayName)
  {
    var ws := WhenLines(es);
    LinesAround(CaseHeader, ws, ElseLine(displayName));
    assert |ws| == |es|;
    var ls := CaseLines(es, displayName);
    forall i | 0 <= i < |es| ensures ls[i + 1] == WhenLine(es[i].key, es[i].value) {
      assert ls[i + 1] == ws[i];
    }
  }

  /** A sequence with one element before and one after `ws`, by position. */
  lemma LinesAround(first: string, ws: seq<string>, last: string)
    ensures var ls := [first] + ws + [last];
      && |ls| == |ws| + 2
      && ls[0] == first
      && (forall i :: 0 <= i < |ws| ==> ls[i + 1] == ws[i])
      && ls[|ws| + 1] == last
  {
  }

  /** The lines of the CASE are the header, one WHEN branch per entry in iteration
      order and the ELSE branch; the WHEN branches are those lines and no others. */
  lemma CaseLinesShape(es: seq<Entry<int64>>, displayName: string)
    ensures var ls := CaseLines(es, displayName);
      && |ls| == |es| + 2
      && ls[0] == CaseHeader
      && (forall i :: 0 <= i < |es| ==> ls[i + 1] == WhenLine(es[i].key, es[i].value))
      && ls[|es| + 1] == ElseLine(displayName)
      && (forall j :: 0 <= j < |ls| ==> (IsWhenLine(ls[j]) <==> 1 <= j <= |es|))
  {
    var ls := CaseLines(es, displayName);
    CaseLinesIndex(es, displayName);
    forall j | 0 <= j < |ls| ensures IsWhenLine(ls[j]) <==> 1 <= j <= |es| {
      if j == 0 {
        CaseHeaderShape();
      } else if j <= |es| {
        WhenLineShape(es[j - 1].key, es[j - 1].value);
      } else {
        ElseLineShape(displayName);
      }
    }
  }

  /** No line of the CASE holds a newline unless a key or the display name does. */
  lemma CaseLinesHaveNoNewline(es: seq<Entry<int64>>, displayName: string)
    requires forall i :: 0 <= i < |es| ==> '\n' !in es[i].key
    requires '\n' !in displayName
    ensures forall i :: 0 <= i < |CaseLines(es, displayName)| ==> '\n' !in CaseLines(es, displayName)[i]
  {
    var ls := CaseLines(es, displayName);
    CaseLinesIndex(es, displayName);
    forall i | 0 <= i < |ls| ensures '\n' !in ls[i] {
      if i == 0 {
        CaseHeaderShape();
      } else if i <= |es| {
        WhenLineShape(es[i - 1].key, es[i - 1].value);
      } else {
        ElseLineShape(displayName);
      }
    }
  }

  /** When no key and not the display name holds a newline, splitting the body at its
      newlines gives exactly its CASE lines followed by END (so the body has one WHEN
      line per entry and no other, by CaseLinesShape; END is no WHEN line). */
  lemma CaseBodySplits(es: seq<Entry<int64>>, displayName: string)
    requires forall i :: 0 <= i < |es| ==> '\n' !in es[i].key
    requires '\n' !in displayName
    ensures SplitLines(CaseBodyText(es, displayName)) == CaseLines(es, displayName) + ["END"]
    ensures !IsWhenLine("END")
  {
    CaseLinesHaveNoNewline(es, displayName);
    SplitJoinLines(CaseLines(es, displayName), "END");
  }
}
