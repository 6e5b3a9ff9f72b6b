/**
 Rendering of configuration values as JSON text, compact or indented. The compact text is used as the
 identity of a value, so it must determine the value; string escaping follows section 7 of RFC 8259.
 Real numbers are not modelled.
 */
module ConfigJson {
  import opened Bytes

  /** An object lists its members in key order, as the source's ordered map does. */
  datatype Value =
    | Null
    | Boolean(b: bool)
    | Integer(n: Int64)
    | String(s: Text)
    | Array(items: seq<Value>)
    | Object(members: seq<Member>)

  datatype Member = Member(key: Text, item: Value)

  const QUOTE: Byte := 34
  const COMMA: Byte := 44
  const COLON: Byte := 58
  const BACKSLASH: Byte := 92

  // ----- the text of a value -----

  function EscapedByte(c: Byte): (e: Text)
    ensures e != []
  {
    if c == QUOTE || c == BACKSLASH then [BACKSLASH, c]
    else if c < 32 then [BACKSLASH, 117, 48, 48, HexDigit(c / 16), HexDigit(c % 16)]
    else [c]
  }

  function Escaped(s: Text): Text {
    if s == [] then [] else EscapedByte(s[0]) + Escaped(s[1..])
  }

  function Quoted(s: Text): Text {
    [QUOTE] + Escaped(s) + [QUOTE]
  }

  function Digits(n: nat): (d: Text)
    ensures d != [] && forall i :: 0 <= i < |d| ==> 48 <= d[i] <= 57
  {
    if n < 10 then [48 + n] else Digits(n / 10) + [48 + n % 10]
  }

  function Decimal(n: int): (d: Text)
    ensures d != []
  {
    if n < 0 then [45] + Digits(-n) else Digits(n)
  }

  function Spaces(count: nat): Text {
    seq(count, i => 32)
  }

  function Newline(level: nat, pretty: bool): Text {
    if pretty then [10] + Spaces(2 * level) else []
  }

  function Render(v: Value, depth: nat, pretty: bool): Text
    decreases v
  {
    match v
    case Object(members) => [123] + RenderMembers(members, true, depth, pretty) + [125]
    case Array(items) => [91] + RenderItems(items, true, depth, pretty) + [93]
    case String(s) => Quoted(s)
    case Integer(n) => Decimal(n)
    case Boolean(b) => if b then [116, 114, 117, 101] else [102, 97, 108, 115, 101]
    case Null => [110, 117, 108, 108]
  }

  /** The rest of an array's text up to its closing bracket. */
  function RenderItems(items: seq<Value>, first: bool, depth: nat, pretty: bool): Text
    decreases items
  {
    if items == [] then (if first then [] else Newline(depth, pretty))
    else
      (if first then [] else [COMMA]) + Newline(depth + 1, pretty)
      + Render(items[0], depth + 1, pretty) + RenderItems(items[1..], false, depth, pretty)
  }

  function Separator(pretty: bool): Text {
    if pretty then [COLON, 32] else [COLON]
  }

  function RenderMembers(members: seq<Member>, first: bool, depth: nat, pretty: bool): Text
    decreases members
  {
    if members == [] then (if first then [] else Newline(depth, pretty))
    else
      (if first then [] else [COMMA]) + Newline(depth + 1, pretty) + Quoted(members[0].key) + Separator(pretty)
      + Render(members[0].item, depth + 1, pretty) + RenderMembers(members[1..], false, depth, pretty)
  }

  // ----- texts are uniquely readable -----

  lemma HexUnique(c: nat, d: nat)
    requires c < 16 && d < 16 && HexDigit(c) == HexDigit(d)
    ensures c == d
  {
  }

  lemma EscapedByteUnique(c: Byte, d: Byte, x: Text, y: Text)
    requires EscapedByte(c) + x == EscapedByte(d) + y
    ensures c == d && x == y
  {
    var l, r := EscapedByte(c) + x, EscapedByte(d) + y;
    assert l[0] == EscapedByte(c)[0] && r[0] == EscapedByte(d)[0];
    if l[0] == BACKSLASH {
      assert l[1] == EscapedByte(c)[1] && r[1] == EscapedByte(d)[1];
      if l[1] == 117 {
        assert l[4] == EscapedByte(c)[4] && l[5] == EscapedByte(c)[5];
        assert r[4] == EscapedByte(d)[4] && r[5] == EscapedByte(d)[5];
        HexUnique(c / 16, d / 16);
        HexUnique(c % 16, d % 16);
      }
    }
    assert c == d;
    assert x == l[|EscapedByte(c)|..] && y == r[|EscapedByte(d)|..];
  }

  lemma EscapedStart(s: Text, x: Text)
    ensures (Escaped(s) + ([QUOTE] + x))[0] == QUOTE <==> s == []
    ensures s != [] ==> Escaped(s) + ([QUOTE] + x) == EscapedByte(s[0]) + (Escaped(s[1..]) + ([QUOTE] + x))
  {
    if s != [] {
      Associative(EscapedByte(s[0]), Escaped(s[1..]), [QUOTE] + x);
    }
  }

  lemma {:induction false} EscapedUnique(s: Text, t: Text, x: Text, y: Text)
    requires Escaped(s) + ([QUOTE] + x) == Escaped(t) + ([QUOTE] + y)
    ensures s == t && x == y
    decreases |s|
  {
    EscapedStart(s, x);
    EscapedStart(t, y);
    if s == [] {
      assert Escaped(s) + ([QUOTE] + x) == [QUOTE] + x && Escaped(t) + ([QUOTE] + y) == [QUOTE] + y;
      DropPrefix([QUOTE], x, y);
    } else {
      EscapedByteUnique(s[0], t[0], Escaped(s[1..]) + ([QUOTE] + x), Escaped(t[1..]) + ([QUOTE] + y));
      EscapedUnique(s[1..], t[1..], x, y);
      assert s == [s[0]] + s[1..] && t == [t[0]] + t[1..];
    }
  }

  lemma DropPrefix(p: Text, x: Text, y: Text)
    requires p + x == p + y
    ensures x == y
  {
    assert x == (p + x)[|p|..] && y == (p + y)[|p|..];
  }

  lemma QuotedUnique(s: Text, t: Text, x: Text, y: Text)
    requires Quoted(s) + x == Quoted(t) + y
    ensures s == t && x == y
  {
    QuotedTail(s, x);
    QuotedTail(t, y);
    EscapedUnique(s, t, x, y);
  }

  lemma QuotedTail(s: Text, x: Text)
    ensures (Quoted(s) + x)[1..] == Escaped(s) + ([QUOTE] + x)
  {
    Associative([QUOTE] + Escaped(s), [QUOTE], x);
    Associative([QUOTE], Escaped(s), [QUOTE] + x);
    SumTail(QUOTE, Escaped(s) + ([QUOTE] + x));
  }

  function DigitsValue(d: Text): int {
    if d == [] then 0 else 10 * DigitsValue(d[..|d| - 1]) + d[|d| - 1] - 48
  }

  lemma {:induction false} DigitsRoundTrip(n: nat)
    ensures DigitsValue(Digits(n)) == n
  {
    var d := Digits(n);
    if n < 10 {
      assert d[..0] == [];
    } else {
      DigitsRoundTrip(n / 10);
      assert d[..|d| - 1] == Digits(n / 10);
    }
  }

  /** What may follow a value: nothing, a comma, a closing bracket or a line break. */
  predicate Delimited(x: Text) {
    x == [] || x[0] in {COMMA, 93, 125, 10}
  }

  ghost predicate AllDigits(a: Text) {
    forall i :: 0 <= i < |a| ==> 48 <= a[i] <= 57
  }

  lemma DigitsEnd(a: Text, b: Text, x: Text, y: Text)
    requires a + x == b + y && AllDigits(a) && Delimited(y)
    ensures |a| <= |b|
  {
    var whole := a + x;
    assert forall i :: 0 <= i < |a| ==> whole[i] == a[i];
    assert forall i :: |b| <= i < |whole| ==> whole[i] == y[i - |b|];
    var boundary := if |b| < |whole| then whole[|b|] else COMMA;
    assert boundary in {COMMA, 93, 125, 10};
  }

  lemma DigitsUnique(m: nat, n: nat, x: Text, y: Text)
    requires Digits(m) + x == Digits(n) + y && Delimited(x) && Delimited(y)
    ensures m == n && x == y
  {
    var a, b := Digits(m), Digits(n);
    DigitsEnd(a, b, x, y);
    DigitsEnd(b, a, y, x);
    assert a == (a + x)[..|a|] && b == (b + y)[..|b|];
    DigitsRoundTrip(m);
    DigitsRoundTrip(n);
    DropPrefix(a, x, y);
  }

  lemma DecimalUnique(m: int, n: int, x: Text, y: Text)
    requires Decimal(m) + x == Decimal(n) + y && Delimited(x) && Delimited(y)
    ensures m == n && x == y
  {
    assert (Decimal(m) + x)[0] == Decimal(m)[0] && (Decimal(n) + y)[0] == Decimal(n)[0];
    assert m < 0 <==> Decimal(m)[0] == 45;
    assert n < 0 <==> Decimal(n)[0] == 45;
    if m < 0 {
      Associative([45], Digits(-m), x);
      Associative([45], Digits(-n), y);
      DropPrefix([45], Digits(-m) + x, Digits(-n) + y);
      DigitsUnique(-m, -n, x, y);
    } else {
      DigitsUnique(m, n, x, y);
    }
  }

  /** The first byte of a value's text tells its kind. */
  function Kind(c: Byte): nat {
    if c == 123 then 1 else if c == 91 then 2 else if c == QUOTE then 3
    else if c == 116 then 4 else if c == 102 then 5 else if c == 110 then 6 else 7
  }

  function KindOf(v: Value): nat {
    match v
    case Object(_) => 1
    case Array(_) => 2
    case String(_) => 3
    case Boolean(b) => if b then 4 else 5
    case Null => 6
    case Integer(_) => 7
  }

  lemma FirstByte(v: Value, depth: nat, pretty: bool)
    ensures var text := Render(v, depth, pretty);
      text != [] && Kind(text[0]) == KindOf(v) && text[0] !in {COMMA, 93, 125, 10}
  {
  }

  lemma ItemsTailDelimited(items: seq<Value>, depth: nat, pretty: bool, x: Text)
    ensures Delimited(RenderItems(items, false, depth, pretty) + ([93] + x))
  {
  }

  lemma MembersTailDelimited(members: seq<Member>, depth: nat, pretty: bool, x: Text)
    ensures Delimited(RenderMembers(members, false, depth, pretty) + ([125] + x))
  {
  }

  lemma Bracketed(open: Byte, body: Text, close: Byte, x: Text)
    ensures ([open] + body + [close]) + x == [open] + (body + ([close] + x))
  {
  }

  /** Main lemma: a value's text, followed by a delimiter, can be read in one way only. */
  lemma {:induction false} RenderUnique(a: Value, b: Value, depth: nat, pretty: bool, x: Text, y: Text)
    requires Render(a, depth, pretty) + x == Render(b, depth, pretty) + y
    requires Delimited(x) && Delimited(y)
    ensures a == b && x == y
    decreases a, 1
  {
    SameKind(a, b, depth, pretty, x, y);
    match a {
      case Object(members) =>
        var ra := RenderMembers(members, true, depth, pretty);
        var rb := RenderMembers(b.members, true, depth, pretty);
        Bracketed(123, ra, 125, x);
        Bracketed(123, rb, 125, y);
        DropPrefix([123], ra + ([125] + x), rb + ([125] + y));
        MembersUnique(members, b.members, true, depth, pretty, x, y);
      case Array(items) =>
        var ra := RenderItems(items, true, depth, pretty);
        var rb := RenderItems(b.items, true, depth, pretty);
        Bracketed(91, ra, 93, x);
        Bracketed(91, rb, 93, y);
        DropPrefix([91], ra + ([93] + x), rb + ([93] + y));
        ItemsUnique(items, b.items, true, depth, pretty, x, y);
      case String(s) =>
        QuotedUnique(s, b.s, x, y);
      case Integer(n) =>
        DecimalUnique(n, b.n, x, y);
      case _ =>
        DropPrefix(Render(a, depth, pretty), x, y);
    }
  }

  lemma SameKind(a: Value, b: Value, depth: nat, pretty: bool, x: Text, y: Text)
    requires Render(a, depth, pretty) + x == Render(b, depth, pretty) + y
    ensures KindOf(a) == KindOf(b)
  {
    var ta, tb := Render(a, depth, pretty), Render(b, depth, pretty);
    FirstByte(a, depth, pretty);
    FirstByte(b, depth, pretty);
    assert ta[0] == (ta + x)[0] == (tb + y)[0] == tb[0];
  }

  function Lead(first: bool, depth: nat, pretty: bool): Text {
    (if first then [] else [COMMA]) + Newline(depth + 1, pretty)
  }

  lemma ItemsSplit(items: seq<Value>, first: bool, depth: nat, pretty: bool, x: Text)
    requires items != []
    ensures RenderItems(items, first, depth, pretty) + x
         == Lead(first, depth, pretty)
            + (Render(items[0], depth + 1, pretty) + (RenderItems(items[1..], false, depth, pretty) + x))
  {
  }

  lemma MembersSplit(members: seq<Member>, first: bool, depth: nat, pretty: bool, x: Text)
    requires members != []
    ensures RenderMembers(members, first, depth, pretty) + x
         == Lead(first, depth, pretty)
            + (Quoted(members[0].key) + (Separator(pretty)
            + (Render(members[0].item, depth + 1, pretty) + (RenderMembers(members[1..], false, depth, pretty) + x))))
  {
    var c := if first then [] else [COMMA];
    MemberParts(c, Newline(depth + 1, pretty), Quoted(members[0].key), Separator(pretty),
                Render(members[0].item, depth + 1, pretty), RenderMembers(members[1..], false, depth, pretty), x);
  }

  lemma MemberParts(a: Text, b: Text, c: Text, d: Text, e: Text, f: Text, x: Text)
    ensures a + b + c + d + e + f + x == (a + b) + (c + (d + (e + (f + x))))
  {
    Associative(a + b + c + d + e, f, x);
    Associative(a + b + c + d, e, f + x);
    Associative(a + b + c, d, e + (f + x));
    Associative(a + b, c, d + (e + (f + x)));
  }

  /** An empty rest cannot be confused with a non-empty one. */
  lemma EmptyRest(first: bool, depth: nat, pretty: bool, close: Byte, x: Text, body: Text)
    requires close == 93 || close == 125
    requires body != [] && body[0] !in {COMMA, 93, 125, 10}
    ensures (if first then [] else Newline(depth, pretty)) + ([close] + x) != Lead(first, depth, pretty) + body
  {
    var l, r := (if first then [] else Newline(depth, pretty)) + ([close] + x), Lead(first, depth, pretty) + body;
    assert l[0] == if first || !pretty then close else 10;
    assert r[0] == if !first then COMMA else if pretty then 10 else body[0];
  }

  lemma {:induction false} ItemsUnique(
    a: seq<Value>, b: seq<Value>, first: bool, depth: nat, pretty: bool, x: Text, y: Text)
    requires RenderItems(a, first, depth, pretty) + ([93] + x) == RenderItems(b, first, depth, pretty) + ([93] + y)
    ensures a == b && x == y
    decreases a, 0
  {
    if a == [] && b == [] {
      DropPrefix(RenderItems(a, first, depth, pretty), [93] + x, [93] + y);
      DropPrefix([93], x, y);
    } else if a == [] {
      ItemsSplit(b, first, depth, pretty, [93] + y);
      FirstByte(b[0], depth + 1, pretty);
      EmptyRest(first, depth, pretty, 93, x,
                Render(b[0], depth + 1, pretty) + (RenderItems(b[1..], false, depth, pretty) + ([93] + y)));
    } else if b == [] {
      ItemsSplit(a, first, depth, pretty, [93] + x);
      FirstByte(a[0], depth + 1, pretty);
      EmptyRest(first, depth, pretty, 93, y,
                Render(a[0], depth + 1, pretty) + (RenderItems(a[1..], false, depth, pretty) + ([93] + x)));
    } else {
      ItemsSplit(a, first, depth, pretty, [93] + x);
      ItemsSplit(b, first, depth, pretty, [93] + y);
      var ra := RenderItems(a[1..], false, depth, pretty) + ([93] + x);
      var rb := RenderItems(b[1..], false, depth, pretty) + ([93] + y);
      DropPrefix(Lead(first, depth, pretty),
                 Render(a[0], depth + 1, pretty) + ra, Render(b[0], depth + 1, pretty) + rb);
      ItemsTailDelimited(a[1..], depth, pretty, x);
      ItemsTailDelimited(b[1..], depth, pretty, y);
      RenderUnique(a[0], b[0], depth + 1, pretty, ra, rb);
      ItemsUnique(a[1..], b[1..], false, depth, pretty, x, y);
      assert a == [a[0]] + a[1..] && b == [b[0]] + b[1..];
    }
  }

  lemma {:induction false} MembersUnique(
    a: seq<Member>, b: seq<Member>, first: bool, depth: nat, pretty: bool, x: Text, y: Text)
    requires RenderMembers(a, first, depth, pretty) + ([125] + x) == RenderMembers(b, first, depth, pretty) + ([125] + y)
    ensures a == b && x == y
    decreases a, 0
  {
    if a == [] && b == [] {
      DropPrefix(RenderMembers(a, first, depth, pretty), [125] + x, [125] + y);
      DropPrefix([125], x, y);
    } else if a == [] {
      MembersSplit(b, first, depth, pretty, [125] + y);
      var body := Separator(pretty)
        + (Render(b[0].item, depth + 1, pretty) + (RenderMembers(b[1..], false, depth, pretty) + ([125] + y)));
      EmptyRest(first, depth, pretty, 125, x, Quoted(b[0].key) + body);
    } else if b == [] {
      MembersSplit(a, first, depth, pretty, [125] + x);
      var body := Separator(pretty)
        + (Render(a[0].item, depth + 1, pretty) + (RenderMembers(a[1..], false, depth, pretty) + ([125] + x)));
      EmptyRest(first, depth, pretty, 125, y, Quoted(a[0].key) + body);
    } else {
      MembersSplit(a, first, depth, pretty, [125] + x);
      MembersSplit(b, first, depth, pretty, [125] + y);
      var ra := RenderMembers(a[1..], false, depth, pretty) + ([125] + x);
      var rb := RenderMembers(b[1..], false, depth, pretty) + ([125] + y);
      var va := Render(a[0].item, depth + 1, pretty) + ra;
      var vb := Render(b[0].item, depth + 1, pretty) + rb;
      DropPrefix(Lead(first, depth, pretty),
                 Quoted(a[0].key) + (Separator(pretty) + va), Quoted(b[0].key) + (Separator(pretty) + vb));
      QuotedUnique(a[0].key, b[0].key, Separator(pretty) + va, Separator(pretty) + vb);
      DropPrefix(Separator(pretty), va, vb);
      MembersTailDelimited(a[1..], depth, pretty, x);
      MembersTailDelimited(b[1..], depth, pretty, y);
      RenderUnique(a[0].item, b[0].item, depth + 1, pretty, ra, rb);
      MembersUnique(a[1..], b[1..], false, depth, pretty, x, y);
      assert a == [a[0]] + a[1..] && b == [b[0]] + b[1..];
    }
  }

  /** `config_value_json`: the indented form ends in a line break. */
  function Json(v: Value, pretty: bool): Text {
    Render(v, 0, pretty) + if pretty then [10] else []
  }

  /** Main result: in either layout the text determines the value. */
  lemma JsonInjective(a: Value, b: Value, pretty: bool)
    ensures Json(a, pretty) == Json(b, pretty) <==> a == b
  {
    if Json(a, pretty) == Json(b, pretty) {
      var end: Text := if pretty then [10] else [];
      RenderUnique(a, b, 0, pretty, end, end);
    }
  }

  // ----- the loops -----

  method AppendEscaped(output: Text, c: Byte) returns (output': Text)
    ensures output' == output + EscapedByte(c)
  {
    if c == QUOTE || c == BACKSLASH {
      output' := output + [BACKSLASH];
      output' := output' + [c];
    } else if c < 32 {
      output' := output + [BACKSLASH, 117, 48, 48];
      output' := output' + [HexDigit(c / 16)];
      output' := output' + [HexDigit(c % 16)];
    } else {
      output' := output + [c];
    }
  }

  method RenderString(input: Text, output: Text) returns (output': Text)
    ensures output' == output + Quoted(input)
  {
    output' := output + [QUOTE];
    for i := 0 to |input|
      invariant output' + Escaped(input[i..]) == output + [QUOTE] + Escaped(input)
    {
      Associative(output', EscapedByte(input[i]), Escaped(input[i + 1..]));
      assert input[i..][1..] == input[i + 1..];
      output' := AppendEscaped(output', input[i]);
    }
    assert output' == output + [QUOTE] + Escaped(input);
    output' := output' + [QUOTE];
  }

  lemma BracketedAfter(output: Text, open: Byte, body: Text, close: Byte)
    ensures (output + [open] + body) + [close] == output + ([open] + body + [close])
  {
  }

  /** Appends a value's text to the output, recursing into arrays and objects. */
  method RenderInto(v: Value, output: Text, depth: nat, pretty: bool) returns (output': Text)
    ensures output' == output + Render(v, depth, pretty)
    decreases v, 1
  {
    match v {
      case Object(members) =>
        output' := RenderMembersInto(members, output + [123], depth, pretty);
        BracketedAfter(output, 123, RenderMembers(members, true, depth, pretty), 125);
        output' := output' + [125];
      case Array(items) =>
        output' := RenderItemsInto(items, output + [91], depth, pretty);
        BracketedAfter(output, 91, RenderItems(items, true, depth, pretty), 93);
        output' := output' + [93];
      case String(s) =>
        output' := RenderString(s, output);
      case Integer(n) =>
        output' := output + Decimal(n);
      case Boolean(b) =>
        output' := output + if b then [116, 114, 117, 101] else [102, 97, 108, 115, 101];
      case Null =>
        output' := output + [110, 117, 108, 108];
    }
  }

  method RenderLead(output: Text, first: bool, depth: nat, pretty: bool) returns (output': Text)
    ensures output' == output + Lead(first, depth, pretty)
  {
    output' := output;
    if !first {
      output' := output' + [COMMA];
    }
    output' := output' + Newline(depth + 1, pretty);
  }

  lemma ItemsStep(output: Text, items: seq<Value>, i: nat, first: bool, depth: nat, pretty: bool)
    requires i < |items|
    ensures output + RenderItems(items[i..], first, depth, pretty)
         == (output + Lead(first, depth, pretty)) + Render(items[i], depth + 1, pretty)
            + RenderItems(items[i + 1..], false, depth, pretty)
  {
    assert items[i..][1..] == items[i + 1..];
    var rest := RenderItems(items[i + 1..], false, depth, pretty);
    ItemsSplit(items[i..], first, depth, pretty, []);
    assert rest + [] == rest;
    assert RenderItems(items[i..], first, depth, pretty) + [] == RenderItems(items[i..], first, depth, pretty);
    FourParts(output, Lead(first, depth, pretty), Render(items[i], depth + 1, pretty), rest);
  }

  lemma FourParts(a: Text, b: Text, c: Text, d: Text)
    ensures a + (b + (c + d)) == (a + b) + c + d
  {
  }

  method RenderItemsInto(items: seq<Value>, output: Text, depth: nat, pretty: bool) returns (output': Text)
    ensures output' == output + RenderItems(items, true, depth, pretty)
    decreases items, 0
  {
    output' := output;
    var first := true;
    for i := 0 to |items|
      invariant first == (i == 0)
      invariant output' + RenderItems(items[i..], first, depth, pretty) == output + RenderItems(items, true, depth, pretty)
    {
      ItemsStep(output', items, i, first, depth, pretty);
      output' := RenderLead(output', first, depth, pretty);
      first := false;
      output' := RenderInto(items[i], output', depth + 1, pretty);
    }
    if !first {
      output' := output' + Newline(depth, pretty);
    }
  }

  lemma MembersStep(output: Text, members: seq<Member>, i: nat, first: bool, depth: nat, pretty: bool)
    requires i < |members|
    ensures output + RenderMembers(members[i..], first, depth, pretty)
         == ((output + Lead(first, depth, pretty)) + Quoted(members[i].key) + Separator(pretty))
            + Render(members[i].item, depth + 1, pretty) + RenderMembers(members[i + 1..], false, depth, pretty)
  {
    assert members[i..][1..] == members[i + 1..];
    var key, item, rest := Quoted(members[i].key), Render(members[i].item, depth + 1, pretty),
                           RenderMembers(members[i + 1..], false, depth, pretty);
    MembersSplit(members[i..], first, depth, pretty, []);
    assert rest + [] == rest;
    assert RenderMembers(members[i..], first, depth, pretty) + [] == RenderMembers(members[i..], first, depth, pretty);
    FourParts(output, Lead(first, depth, pretty), key, Separator(pretty) + (item + rest));
    FourParts((output + Lead(first, depth, pretty)) + key, Separator(pretty), item, rest);
  }

  method RenderMembersInto(members: seq<Member>, output: Text, depth: nat, pretty: bool) returns (output': Text)
    ensures output' == output + RenderMembers(members, true, depth, pretty)
    decreases members, 0
  {
    output' := output;
    var first := true;
    for i := 0 to |members|
      invariant first == (i == 0)
      invariant output' + RenderMembers(members[i..], first, depth, pretty)
             == output + RenderMembers(members, true, depth, pretty)
    {
      MembersStep(output', members, i, first, depth, pretty);
      output' := RenderLead(output', first, depth, pretty);
      first := false;
      output' := RenderString(members[i].key, output');
      output' := output' + Separator(pretty);
      output' := RenderInto(members[i].item, output', depth + 1, pretty);
    }
    if !first {
      output' := output' + Newline(depth, pretty);
    }
  }

  method ConfigValueJson(v: Value, pretty: bool) returns (text: Text)
    ensures text == Json(v, pretty)
  {
    text := RenderInto(v, [], 0, pretty);
    if pretty {
      text := text + [10];
    }
  }

  /** The `uniqueItems` test: comparing texts finds a duplicate exactly when two values are equal. */
  method HasDuplicate(items: seq<Value>) returns (duplicate: bool)
    ensures duplicate <==> exists i, j :: 0 <= i < j < |items| && items[i] == items[j]
  {
    var unique: set<Text> := {};
    for j := 0 to |items|
      invariant forall t :: t in unique <==> exists i :: 0 <= i < j && t == Json(items[i], false)
      invariant forall i, k :: 0 <= i < k < j ==> items[i] != items[k]
    {
      var text := ConfigValueJson(items[j], false);
      if text in unique {
        var i :| 0 <= i < j && text == Json(items[i], false);
        JsonInjective(items[i], items[j], false);
        return true;
      }
      forall i | 0 <= i < j ensures items[i] != items[j] {
        assert Json(items[i], false) in unique;
      }
      unique := unique + {text};
    }
    return false;
  }
}
