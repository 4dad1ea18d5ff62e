/**
 * The panel-descriptor argument type of graf-report.py (`panel_type`): a
 * `(dashboard,panelId,width,height)` tuple given as text on the command line.
 */
module PanelSpec {
  import opened Wrappers
  import opened Strings

  /** One panel to render, with its four fields kept as the unconverted text. */
  datatype Panel = Panel(dashboard: string, panelId: string, width: string, height: string)

  predicate IsDigit(c: char)
  {
    '0' <= c <= '9'
  }

  /** `digit ('_'? digit)*`: decimal digits, single underscores only between two digits. */
  predicate IsDigitGroups(s: string)
  {
    && |s| > 0
    && IsDigit(s[0])
    && IsDigit(s[|s| - 1])
    && (forall i :: 0 <= i < |s| ==> IsDigit(s[i]) || s[i] == '_')
    && (forall i :: 0 <= i < |s| - 1 ==> s[i] == '_' ==> s[i + 1] != '_')
  }

  /** CPython's default bound on the number of digits `int(s)` converts. */
  const MaxIntDigits := 4300

  /** The digits of a digit-group string, underscores not counted. */
  function DigitCount(s: string): (n: int)
    ensures n <= |s|
  {
    |s| - Count(s, '_')
  }

  /** The part after the sign: digit groups holding at most `MaxIntDigits` digits. */
  predicate IsIntBody(t: string)
  {
    IsDigitGroups(t) && DigitCount(t) <= MaxIntDigits
  }

  /**
   * The strings Python's `int(s)` accepts in base 10: optional surrounding
   * whitespace, an optional sign, then digit groups of at most `MaxIntDigits`
   * digits. Longer ones raise `ValueError`, like malformed ones.
   */
  predicate IsIntLiteral(s: string)
  {
    var t := Strip(s);
    && |t| > 0
    && if t[0] == '+' || t[0] == '-' then IsIntBody(t[1..]) else IsIntBody(t)
  }

  /** The failures raised inside the `try` block of `panel_type`. */
  datatype FieldError =
    | WrongArity(got: nat)   // the four-way unpacking of the split
    | PanelIdNotInteger
    | WidthNotInteger
    | HeightNotInteger

  /** The decimal digits of `n`. */
  function Decimal(n: nat): (r: string)
    ensures |r| > 0 && forall i :: 0 <= i < |r| ==> IsDigit(r[i])
  {
    var d := ['0' + (n % 10) as char];
    if n < 10 then d else Decimal(n / 10) + d
  }

  /** The message each failure is raised with before the bare `except` replaces it.
      Long message literals are written as short pieces so that proofs about their
      first characters stay cheap for the verifier. */
  function Raised(e: FieldError, stripped: string): string
  {
    match e
    case WrongArity(got) =>
      if got < 4 then "not enough " + "values to unpack " + "(expected 4, got " + Decimal(got) + ")"
      else "too many " + "values to unpack " + "(expected 4)"
    case PanelIdNotInteger => "PanelId must be an integer: [" + stripped + "]"
    case WidthNotInteger => "Width must be an integer: [" + stripped + "]"
    case HeightNotInteger => "Height must be an integer: [" + stripped + "]"
  }

  const PanelErrorPrefix := "Every panel must be " + "(<str>dashboard," + "<int>panelId," + "<int>width," + "<int>height): ["

  /** The one message every rejection of `panel_type` carries. */
  function PanelError(stripped: string): string
  {
    PanelErrorPrefix + stripped + "]"
  }

  /** Both `s.replace("(", "")` and `s.replace(")", "")`. */
  function Unbracket(s: string): (r: string)
    ensures '(' !in r && ')' !in r
  {
    RemoveAll(RemoveAll(s, '('), ')')
  }

  /** The body of the `try` block after the brackets are gone: unpack, then the three `int` checks in order. */
  function CheckFields(stripped: string): (r: Result<Panel, FieldError>)
    ensures r.Success? ==> Count(stripped, ',') == 3 && Fields(r.value) == Split(stripped, ',')
    ensures r.Success? ==> IsIntLiteral(r.value.panelId) && IsIntLiteral(r.value.width) && IsIntLiteral(r.value.height)
    ensures r.Failure? ==> (r.error.WrongArity? <==> Count(stripped, ',') != 3)
    ensures (&& Count(stripped, ',') == 3
             && IsIntLiteral(Split(stripped, ',')[1])
             && IsIntLiteral(Split(stripped, ',')[2])
             && IsIntLiteral(Split(stripped, ',')[3])) ==> r.Success?
  {
    var fields := Split(stripped, ',');
    if |fields| != 4 then Failure(WrongArity(|fields|))
    else
      var p := Panel(fields[0], fields[1], fields[2], fields[3]);
      assert Fields(p) == fields;
      if !IsIntLiteral(p.panelId) then Failure(PanelIdNotInteger)
      else if !IsIntLiteral(p.width) then Failure(WidthNotInteger)
      else if !IsIntLiteral(p.height) then Failure(HeightNotInteger)
      else Success(p)
  }

  /** `panel_type(s)`: the parsed panel, or the generic message naming the stripped text. */
  function PanelType(s: string): (r: Result<Panel, string>)
    ensures r.Success? ==> IsIntLiteral(r.value.panelId) && IsIntLiteral(r.value.width) && IsIntLiteral(r.value.height)
    ensures r.Failure? ==> CheckFields(Unbracket(s)).Failure? && r.error == PanelError(Unbracket(s))
    ensures r.Success? <==> CheckFields(Unbracket(s)).Success?
  {
    var stripped := Unbracket(s);
    match CheckFields(stripped)
    case Success(p) => Success(p)
    case Failure(_) => Failure(PanelError(stripped))
  }

  /** The four fields of a panel in tuple order. */
  function Fields(p: Panel): seq<string>
  {
    [p.dashboard, p.panelId, p.width, p.height]
  }

  /** What a successful parse guarantees: its four fields joined by commas are the
      stripped input, none holds a comma or bracket, and the last three are integers. */
  predicate WellFormed(p: Panel)
  {
    && IsPlain(p.dashboard) && IsPlain(p.panelId) && IsPlain(p.width) && IsPlain(p.height)
    && IsIntLiteral(p.panelId) && IsIntLiteral(p.width) && IsIntLiteral(p.height)
  }

  /** A field text free of the separator and of both brackets. */
  predicate IsPlain(f: string)
  {
    ',' !in f && '(' !in f && ')' !in f
  }

  /** On success the fields are the unconverted substrings: joining them with `,` rebuilds the stripped input. */
  lemma PanelTypeRoundTrip(s: string)
    requires PanelType(s).Success?
    ensures Join(Fields(PanelType(s).value), ",") == Unbracket(s)
    ensures WellFormed(PanelType(s).value)
  {
    var stripped := Unbracket(s);
    var fields := Split(stripped, ',');
    JoinSplit(stripped, ',');
    assert Fields(PanelType(s).value) == fields;
    forall i | 0 <= i < 4
      ensures IsPlain(fields[i])
    {
      JoinedPiece(fields, ",", i);
    }
    assert IsPlain(fields[0]) && IsPlain(fields[1]) && IsPlain(fields[2]) && IsPlain(fields[3]);
  }

  /** A piece of a join is a contiguous part of it, so it holds no character the join lacks. */
  lemma {:induction false} JoinedPiece(parts: seq<string>, sep: string, i: nat)
    requires i < |parts|
    ensures forall x :: x in parts[i] ==> x in Join(parts, sep)
  {
    if |parts| > 1 {
      var rest := Join(parts[1..], sep);
      assert Join(parts, sep) == parts[0] + sep + rest;
      if i > 0 {
        JoinedPiece(parts[1..], sep, i - 1);
      }
    }
  }

  /** Exactly four fields are needed: a stripped input without exactly three commas is rejected. */
  lemma PanelTypeArity(s: string)
    requires Count(Unbracket(s), ',') != 3
    ensures PanelType(s) == Failure(PanelError(Unbracket(s)))
  {
  }

  /** Four fields whose panelId, width or height is not an integer literal are rejected. */
  lemma PanelTypeNotInteger(s: string)
    requires Count(Unbracket(s), ',') == 3
    requires !IsIntLiteral(Split(Unbracket(s), ',')[1])
          || !IsIntLiteral(Split(Unbracket(s), ',')[2])
          || !IsIntLiteral(Split(Unbracket(s), ',')[3])
    ensures PanelType(s).Failure?
  {
  }

  /** Every rejection carries the same generic message, whichever check failed and whatever it raised. */
  lemma PanelTypeRejection(s: string)
    requires PanelType(s).Failure?
    ensures CheckFields(Unbracket(s)).Failure?
    ensures PanelType(s).error == PanelError(Unbracket(s))
    ensures PanelType(s).error != Raised(CheckFields(Unbracket(s)).error, Unbracket(s))
  {
    var stripped := Unbracket(s);
    var m := PanelType(s).error;
    assert m[0] == 'E';
    var e := CheckFields(stripped).error;
    assert Raised(e, stripped)[0] != 'E' by {
      match e
      case WrongArity(got) =>
        if got < 4 {
          assert Raised(e, stripped)[0] == 'n';
        } else {
          assert Raised(e, stripped)[0] == 't';
        }
      case PanelIdNotInteger =>
      case WidthNotInteger =>
      case HeightNotInteger =>
    }
  }

  /** The other direction of the round trip: a well-formed panel written as a tuple parses back to itself.
      The dashboard is never checked, so it may be empty or hold quotes. */
  lemma PanelTypeOfTuple(p: Panel)
    requires WellFormed(p)
    ensures PanelType("(" + Join(Fields(p), ",") + ")") == Success(p)
  {
    var joined := Join(Fields(p), ",");
    FieldsPlain(p);
    JoinNoChar(Fields(p), ",", '(');
    JoinNoChar(Fields(p), ",", ')');
    UnbracketTuple(joined);
    SplitJoin(Fields(p), ',');
  }

  /** Writing bracket-free text between brackets is undone by the two `replace` calls. */
  lemma UnbracketTuple(joined: string)
    requires '(' !in joined && ')' !in joined
    ensures Unbracket("(" + joined + ")") == joined
  {
    RemoveAllAppend("(" + joined, ")", '(');
    RemoveAllAppend("(", joined, '(');
    RemoveAllAbsent(joined, '(');
    assert RemoveAll("(", '(') == [];
    assert RemoveAll(")", '(') == ")";
    assert RemoveAll("(" + joined + ")", '(') == joined + ")";
    RemoveAllAppend(joined, ")", ')');
    RemoveAllAbsent(joined, ')');
    assert RemoveAll(")", ')') == [];
  }

  lemma FieldsPlain(p: Panel)
    requires IsPlain(p.dashboard) && IsPlain(p.panelId) && IsPlain(p.width) && IsPlain(p.height)
    ensures forall i :: 0 <= i < 4 ==> IsPlain(Fields(p)[i])
  {
    var f := Fields(p);
    assert f[0] == p.dashboard && f[1] == p.panelId && f[2] == p.width && f[3] == p.height;
  }

  /** A plain run of decimal digits, no longer than the digit limit, is an integer literal. */
  lemma DigitsAreInt(s: string)
    requires 0 < |s| <= MaxIntDigits && forall i :: 0 <= i < |s| ==> IsDigit(s[i])
    ensures IsIntLiteral(s)
  {
    assert !IsIntSpace(s[0]) && !IsIntSpace(s[|s| - 1]);
    assert Strip(s) == s;
    assert s[0] != '+' && s[0] != '-';
    assert IsDigitGroups(s);
  }

  /** A minus sign followed by decimal digits, no more than the digit limit, is an integer literal. */
  lemma SignedDigitsAreInt(s: string)
    requires 1 < |s| <= MaxIntDigits + 1 && s[0] == '-' && forall i :: 1 <= i < |s| ==> IsDigit(s[i])
    ensures IsIntLiteral(s)
  {
    assert !IsIntSpace(s[0]) && !IsIntSpace(s[|s| - 1]);
    assert Strip(s) == s;
    assert forall i :: 0 <= i < |s| - 1 ==> s[1..][i] == s[i + 1];
    assert IsDigitGroups(s[1..]);
  }

  /** The characters an integer literal can hold: `int()`'s whitespace, a sign, digits and underscores. */
  predicate IsIntChar(c: char)
  {
    IsIntSpace(c) || IsDigit(c) || c == '_' || c == '+' || c == '-'
  }

  /** An integer literal holds nothing but integer characters. */
  lemma IntLiteralChars(s: string)
    requires IsIntLiteral(s)
    ensures forall i :: 0 <= i < |s| ==> IsIntChar(s[i])
  {
    var a := TrimStart(s);
    var t := TrimEnd(a);
    var signed := t[0] == '+' || t[0] == '-';
    var body := if signed then t[1..] else t;
    assert IsDigitGroups(body);
    forall i | 0 <= i < |t|
      ensures IsIntChar(t[i])
    {
      if signed && i > 0 {
        assert t[i] == body[i - 1];
      }
    }
    forall i | 0 <= i < |a|
      ensures IsIntChar(a[i])
    {
      if i < |t| {
        assert a[i] == t[i];
      }
    }
    forall i | 0 <= i < |s|
      ensures IsIntChar(s[i])
    {
      if i >= |s| - |a| {
        assert s[i] == a[i - (|s| - |a|)];
      }
    }
  }

  /** A join holds only characters of its pieces and of the separator. */
  lemma {:induction false} JoinNoChar(parts: seq<string>, sep: string, x: char)
    requires x !in sep
    requires forall i :: 0 <= i < |parts| ==> x !in parts[i]
    ensures x !in Join(parts, sep)
  {
    if |parts| > 1 {
      JoinNoChar(parts[1..], sep, x);
    }
  }
}
