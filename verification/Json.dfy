/** JSON values and the compact text that Python's `json.dumps` gives them. */
module Json {
  import opened Decimal
  import opened Ordering

  datatype Json =
    | Text(text: string)
    | Number(number: int)
    | List(items: seq<Json>)
    | Object(fields: seq<Field>)

  datatype Field = Field(key: string, value: Json)

  // ----- Strings -----

  function HexDigit(d: nat): (c: char)
    requires d < 16
    ensures IsDigit(c) || 'a' <= c <= 'f'
  {
    if d < 10 then Digit(d) else ('a' as int + d - 10) as char
  }

  function Unit(n: nat): (s: string)
    requires n < 0x1_0000
    ensures |s| == 6 && s[0] == '\\' && s[1] == 'u'
  {
    "\\u" + [HexDigit(n / 0x1000), HexDigit(n / 0x100 % 16), HexDigit(n / 16 % 16), HexDigit(n % 16)]
  }

  /** Printable ASCII stands for itself; the rest is escaped, beyond 16 bits as a surrogate pair. */
  function Escape(c: char): (s: string)
    ensures s != [] && s[0] != '"' && s[0] == if c == '"' || c == '\\' || !(' ' <= c <= '~') then '\\' else c
  {
    var n := c as int;
    if c == '"' || c == '\\' then ['\\', c]
    else if ' ' <= c <= '~' then [c]
    else if n == 8 then "\\b"
    else if n == 9 then "\\t"
    else if n == 10 then "\\n"
    else if n == 12 then "\\f"
    else if n == 13 then "\\r"
    else if n < 0x1_0000 then Unit(n)
    else Unit(0xD800 + (n - 0x1_0000) / 0x400) + Unit(0xDC00 + (n - 0x1_0000) % 0x400)
  }

  function Escaped(s: string): string {
    if s == [] then [] else Escape(s[0]) + Escaped(s[1..])
  }

  function Quoted(s: string): string {
    "\"" + Escaped(s) + "\""
  }

  // ----- Values -----

  function Signed(n: int): (s: string)
    ensures s != [] && (IsDigit(s[0]) || s[0] == '-')
  {
    if n < 0 then "-" + Print(-n) else Print(n)
  }

  function Printed(j: Json): (s: string)
    ensures s != []
    decreases j, 0
  {
    match j
    case Text(s) => Quoted(s)
    case Number(n) => Signed(n)
    case List(items) => "[" + PrintedItems(items)
    case Object(fields) => "{" + PrintedFields(fields)
  }

  function PrintedItems(items: seq<Json>): string
    decreases items, 1
  {
    if items == [] then "]" else Printed(items[0]) + MoreItems(items[1..])
  }

  function MoreItems(items: seq<Json>): string
    decreases items, 1
  {
    if items == [] then "]" else "," + Printed(items[0]) + MoreItems(items[1..])
  }

  function PrintedField(f: Field): (s: string)
    ensures s != []
    decreases f, 1
  {
    Quoted(f.key) + ":" + Printed(f.value)
  }

  function PrintedFields(fields: seq<Field>): string
    decreases fields, 2
  {
    if fields == [] then "}" else PrintedField(fields[0]) + MoreFields(fields[1..])
  }

  function MoreFields(fields: seq<Field>): string
    decreases fields, 2
  {
    if fields == [] then "}" else "," + PrintedField(fields[0]) + MoreFields(fields[1..])
  }

  // ----- A text stands for one value -----

  /** Concatenations that begin with the same part have the same rest. */
  lemma SameRest<T>(a: seq<T>, x: seq<T>, y: seq<T>)
    requires a + x == a + y
    ensures x == y
  {
    assert x == (a + x)[|a|..] && y == (a + y)[|a|..];
  }

  lemma SameFront<T>(a: seq<T>, x: seq<T>, b: seq<T>, y: seq<T>)
    requires a + x == b + y && |a| == |b|
    ensures a == b && x == y
  {
    assert a == (a + x)[..|a|] && b == (b + y)[..|b|];
    SameRest(a, x, y);
  }

  lemma HexDigitInjective(d: nat, e: nat)
    requires d < 16 && e < 16 && HexDigit(d) == HexDigit(e)
    ensures d == e
  {
  }

  lemma Recomposed(n: nat)
    requires n < 0x1_0000
    ensures n == 0x1000 * (n / 0x1000) + 0x100 * (n / 0x100 % 16) + 16 * (n / 16 % 16) + n % 16
  {
    assert n / 0x100 / 16 == n / 0x1000 && n / 16 / 16 == n / 0x100;
  }

  lemma UnitInjective(m: nat, n: nat)
    requires m < 0x1_0000 && n < 0x1_0000 && Unit(m) == Unit(n)
    ensures m == n
  {
    hide HexDigit;
    var s, t := Unit(m), Unit(n);
    assert s[2] == t[2] && s[3] == t[3] && s[4] == t[4] && s[5] == t[5];
    HexDigitInjective(m / 0x1000, n / 0x1000);
    HexDigitInjective(m / 0x100 % 16, n / 0x100 % 16);
    HexDigitInjective(m / 16 % 16, n / 16 % 16);
    HexDigitInjective(m % 16, n % 16);
    Recomposed(m);
    Recomposed(n);
  }

  predicate Wide(c: char) {
    c as int >= 0x1_0000
  }

  /** Characters written as one or two code units. */
  predicate ByUnits(c: char) {
    var n := c as int;
    !(' ' <= c <= '~') && n != 8 && n != 9 && n != 10 && n != 12 && n != 13
  }

  lemma UnitsInjective(c: char, x: string, d: char, y: string)
    requires ByUnits(c) && ByUnits(d) && Escape(c) + x == Escape(d) + y
    ensures c == d && x == y
  {
    hide Unit;
    var m, n := c as int, d as int;
    var p := if Wide(c) then 0xD800 + (m - 0x1_0000) / 0x400 else m;
    var q := if Wide(d) then 0xD800 + (n - 0x1_0000) / 0x400 else n;
    var a := if Wide(c) then Unit(0xDC00 + (m - 0x1_0000) % 0x400) else [];
    var b := if Wide(d) then Unit(0xDC00 + (n - 0x1_0000) % 0x400) else [];
    assert Escape(c) + x == Unit(p) + (a + x) && Escape(d) + y == Unit(q) + (b + y);
    SameFront(Unit(p), a + x, Unit(q), b + y);
    UnitInjective(p, q);
    SameFront(a, x, b, y);
    if Wide(c) {
      UnitInjective(0xDC00 + (m - 0x1_0000) % 0x400, 0xDC00 + (n - 0x1_0000) % 0x400);
    }
  }

  lemma EscapeInjective(c: char, x: string, d: char, y: string)
    requires Escape(c) + x == Escape(d) + y
    ensures c == d && x == y
  {
    var s, t := Escape(c) + x, Escape(d) + y;
    if ByUnits(c) && ByUnits(d) {
      UnitsInjective(c, x, d, y);
    } else {
      hide Unit;
      assert s[0] == t[0];
      assert s[0] == '\\' ==> |s| > 1 && |t| > 1 && s[1] == t[1];
      assert c == d;
      SameRest(Escape(c), x, y);
    }
  }

  lemma {:induction false} EscapedInjective(s: string, x: string, t: string, y: string)
    requires Escaped(s) + "\"" + x == Escaped(t) + "\"" + y
    ensures s == t && x == y
    decreases |s|
  {
    hide Escape;
    var a, b := Escaped(s) + "\"" + x, Escaped(t) + "\"" + y;
    if s == [] || t == [] {
      assert a[0] == b[0];
      assert s == t && a == "\"" + x && b == "\"" + y;
      SameRest("\"", x, y);
    } else {
      var u, v := Escaped(s[1..]) + "\"" + x, Escaped(t[1..]) + "\"" + y;
      assert a == Escape(s[0]) + u && b == Escape(t[0]) + v;
      EscapeInjective(s[0], u, t[0], v);
      EscapedInjective(s[1..], x, t[1..], y);
      assert s == [s[0]] + s[1..] && t == [t[0]] + t[1..];
    }
  }

  lemma QuotedInjective(s: string, x: string, t: string, y: string)
    requires Quoted(s) + x == Quoted(t) + y
    ensures s == t && x == y
  {
    hide Escaped;
    var u, v := Escaped(s) + "\"" + x, Escaped(t) + "\"" + y;
    assert Quoted(s) + x == "\"" + u && Quoted(t) + y == "\"" + v;
    SameRest("\"", u, v);
    EscapedInjective(s, x, t, y);
  }

  /** Text that cannot continue a number. */
  predicate Ends(x: string) {
    x == [] || !IsDigit(x[0])
  }

  lemma NotShorter(a: string, x: string, b: string, y: string)
    requires AllDigits(b) && Ends(x) && a + x == b + y
    ensures |a| >= |b|
  {
    var s := a + x;
    assert x != [] ==> s[|a|] == x[0];
    assert s == b + y && forall i | 0 <= i < |b| :: s[i] == b[i];
  }

  lemma DigitsSplit(a: string, x: string, b: string, y: string)
    requires AllDigits(a) && AllDigits(b) && Ends(x) && Ends(y) && a + x == b + y
    ensures a == b && x == y
  {
    NotShorter(a, x, b, y);
    NotShorter(b, y, a, x);
    SameFront(a, x, b, y);
  }

  lemma DigitsInjective(m: nat, x: string, n: nat, y: string)
    requires Ends(x) && Ends(y) && Print(m) + x == Print(n) + y
    ensures m == n && x == y
  {
    hide Print;
    DigitsSplit(Print(m), x, Print(n), y);
    PrintInjective(m, n);
  }

  lemma NegativeInjective(m: nat, x: string, n: nat, y: string)
    requires Ends(x) && Ends(y) && "-" + Print(m) + x == "-" + Print(n) + y
    ensures m == n && x == y
  {
    hide Print, Ends;
    var a, b := Print(m), Print(n);
    assert "-" + a + x == "-" + (a + x) && "-" + b + y == "-" + (b + y);
    SameRest("-", a + x, b + y);
    DigitsInjective(m, x, n, y);
  }

  lemma Sign(n: int)
    ensures Signed(n)[0] == '-' <==> n < 0
  {
    hide Print;
  }

  lemma SignedInjective(m: int, x: string, n: int, y: string)
    requires Ends(x) && Ends(y) && Signed(m) + x == Signed(n) + y
    ensures m == n && x == y
  {
    hide Print, AllDigits, Ends;
    Sign(m);
    Sign(n);
    assert (Signed(m) + x)[0] == (Signed(n) + y)[0];
    if m < 0 {
      NegativeInjective(-m, x, -n, y);
    } else {
      DigitsInjective(m, x, n, y);
    }
  }

  /** The first character tells the four kinds of value apart. */
  lemma Opening(j: Json)
    ensures var c := Printed(j)[0];
            && (j.Text? <==> c == '"') && (j.List? <==> c == '[') && (j.Object? <==> c == '{')
            && (j.Number? <==> IsDigit(c) || c == '-')
  {
  }

  /** Two values with one text are equal, whatever follows the text that cannot continue a number. */
  lemma {:induction false} PrintedInjective(a: Json, x: string, b: Json, y: string)
    requires Ends(x) && Ends(y) && Printed(a) + x == Printed(b) + y
    ensures a == b && x == y
    decreases a, 0
  {
    hide Quoted, Signed, PrintedItems, PrintedFields;
    Opening(a);
    Opening(b);
    assert (Printed(a) + x)[0] == (Printed(b) + y)[0];
    match a {
      case Text(s) => QuotedInjective(s, x, b.text, y);
      case Number(n) => SignedInjective(n, x, b.number, y);
      case List(items) =>
        var u, v := PrintedItems(items) + x, PrintedItems(b.items) + y;
        assert Printed(a) + x == "[" + u && Printed(b) + y == "[" + v;
        SameRest("[", u, v);
        ItemsInjective(items, x, b.items, y);
      case Object(fields) =>
        var u, v := PrintedFields(fields) + x, PrintedFields(b.fields) + y;
        assert Printed(a) + x == "{" + u && Printed(b) + y == "{" + v;
        SameRest("{", u, v);
        FieldsInjective(fields, x, b.fields, y);
    }
  }

  lemma {:induction false} ItemsInjective(a: seq<Json>, x: string, b: seq<Json>, y: string)
    requires PrintedItems(a) + x == PrintedItems(b) + y
    ensures a == b && x == y
    decreases a, 1
  {
    hide Printed, MoreItems;
    var s, t := PrintedItems(a) + x, PrintedItems(b) + y;
    assert s[0] == t[0];
    if a == [] || b == [] {
      if a != [] { Opening(a[0]); }
      if b != [] { Opening(b[0]); }
      assert a == b;
      SameRest("]", x, y);
    } else {
      var u, v := MoreItems(a[1..]) + x, MoreItems(b[1..]) + y;
      assert s == Printed(a[0]) + u && t == Printed(b[0]) + v;
      MoreEnds(a[1..], x);
      MoreEnds(b[1..], y);
      PrintedInjective(a[0], u, b[0], v);
      MoreInjective(a[1..], x, b[1..], y);
      assert a == [a[0]] + a[1..] && b == [b[0]] + b[1..];
    }
  }

  lemma MoreEnds(items: seq<Json>, x: string)
    ensures Ends(MoreItems(items) + x)
    ensures MoreItems(items)[0] == if items == [] then ']' else ','
  {
    hide Printed;
  }

  lemma {:induction false} MoreInjective(a: seq<Json>, x: string, b: seq<Json>, y: string)
    requires MoreItems(a) + x == MoreItems(b) + y
    ensures a == b && x == y
    decreases a, 1
  {
    hide Printed;
    MoreEnds(a, x);
    MoreEnds(b, y);
    assert (MoreItems(a) + x)[0] == (MoreItems(b) + y)[0];
    if a == [] {
      SameRest("]", x, y);
    } else {
      var u, v := MoreItems(a[1..]) + x, MoreItems(b[1..]) + y;
      assert MoreItems(a) + x == "," + (Printed(a[0]) + u) && MoreItems(b) + y == "," + (Printed(b[0]) + v);
      SameRest(",", Printed(a[0]) + u, Printed(b[0]) + v);
      MoreEnds(a[1..], x);
      MoreEnds(b[1..], y);
      PrintedInjective(a[0], u, b[0], v);
      MoreInjective(a[1..], x, b[1..], y);
      assert a == [a[0]] + a[1..] && b == [b[0]] + b[1..];
    }
  }

  lemma {:induction false} FieldInjective(f: Field, x: string, g: Field, y: string)
    requires Ends(x) && Ends(y) && PrintedField(f) + x == PrintedField(g) + y
    ensures f == g && x == y
    decreases f, 1
  {
    hide Printed, Quoted;
    var u, v := Printed(f.value) + x, Printed(g.value) + y;
    assert PrintedField(f) + x == Quoted(f.key) + (":" + u) && PrintedField(g) + y == Quoted(g.key) + (":" + v);
    QuotedInjective(f.key, ":" + u, g.key, ":" + v);
    SameRest(":", u, v);
    PrintedInjective(f.value, x, g.value, y);
  }

  lemma {:induction false} FieldsInjective(a: seq<Field>, x: string, b: seq<Field>, y: string)
    requires PrintedFields(a) + x == PrintedFields(b) + y
    ensures a == b && x == y
    decreases a, 2
  {
    hide Printed, PrintedField, MoreFields;
    var s, t := PrintedFields(a) + x, PrintedFields(b) + y;
    assert s[0] == t[0];
    if a == [] || b == [] {
      if a != [] { FieldOpening(a[0]); }
      if b != [] { FieldOpening(b[0]); }
      assert a == b;
      SameRest("}", x, y);
    } else {
      var u, v := MoreFields(a[1..]) + x, MoreFields(b[1..]) + y;
      assert s == PrintedField(a[0]) + u && t == PrintedField(b[0]) + v;
      MoreFieldsEnd(a[1..], x);
      MoreFieldsEnd(b[1..], y);
      FieldInjective(a[0], u, b[0], v);
      MoreFieldsInjective(a[1..], x, b[1..], y);
      assert a == [a[0]] + a[1..] && b == [b[0]] + b[1..];
    }
  }

  lemma FieldOpening(f: Field)
    ensures PrintedField(f) != [] && PrintedField(f)[0] == '"'
  {
    hide Printed, Escaped;
  }

  lemma MoreFieldsEnd(fields: seq<Field>, x: string)
    ensures Ends(MoreFields(fields) + x)
    ensures MoreFields(fields)[0] == if fields == [] then '}' else ','
  {
    hide PrintedField;
  }

  lemma {:induction false} MoreFieldsInjective(a: seq<Field>, x: string, b: seq<Field>, y: string)
    requires MoreFields(a) + x == MoreFields(b) + y
    ensures a == b && x == y
    decreases a, 2
  {
    hide PrintedField;
    MoreFieldsEnd(a, x);
    MoreFieldsEnd(b, y);
    assert (MoreFields(a) + x)[0] == (MoreFields(b) + y)[0];
    if a == [] {
      SameRest("}", x, y);
    } else {
      var u, v := MoreFields(a[1..]) + x, MoreFields(b[1..]) + y;
      assert MoreFields(a) + x == "," + (PrintedField(a[0]) + u);
      assert MoreFields(b) + y == "," + (PrintedField(b[0]) + v);
      SameRest(",", PrintedField(a[0]) + u, PrintedField(b[0]) + v);
      MoreFieldsEnd(a[1..], x);
      MoreFieldsEnd(b[1..], y);
      FieldInjective(a[0], u, b[0], v);
      MoreFieldsInjective(a[1..], x, b[1..], y);
      assert a == [a[0]] + a[1..] && b == [b[0]] + b[1..];
    }
  }

  // ----- Printable ASCII -----

  /** Text whose UTF-8 bytes are its characters. */
  predicate Plain(s: string) {
    forall i | 0 <= i < |s| :: ' ' <= s[i] <= '~'
  }

  lemma EscapeIsPlain(c: char)
    ensures Plain(Escape(c))
  {
  }

  lemma {:induction false} QuotedIsPlain(s: string)
    ensures Plain(Escaped(s)) && Plain(Quoted(s))
  {
    hide Escape;
    if s != [] {
      EscapeIsPlain(s[0]);
      QuotedIsPlain(s[1..]);
    }
  }

  /** Everything outside printable ASCII is escaped. */
  lemma {:induction false} PrintedIsPlain(j: Json)
    ensures Plain(Printed(j))
    decreases j, 0
  {
    hide Escaped, Quoted, Print;
    match j {
      case Text(s) => QuotedIsPlain(s);
      case Number(n) =>
      case List(items) => if items != [] { PrintedIsPlain(items[0]); MoreIsPlain(items[1..]); }
      case Object(fields) => if fields != [] { FieldIsPlain(fields[0]); MoreFieldsPlain(fields[1..]); }
    }
  }

  lemma {:induction false} MoreIsPlain(items: seq<Json>)
    ensures Plain(MoreItems(items))
    decreases items, 1
  {
    hide Printed;
    if items != [] {
      PrintedIsPlain(items[0]);
      MoreIsPlain(items[1..]);
    }
  }

  lemma {:induction false} FieldIsPlain(f: Field)
    ensures Plain(PrintedField(f))
    decreases f, 1
  {
    hide Printed, Quoted;
    QuotedIsPlain(f.key);
    PrintedIsPlain(f.value);
  }

  lemma {:induction false} MoreFieldsPlain(fields: seq<Field>)
    ensures Plain(MoreFields(fields))
    decreases fields, 2
  {
    hide PrintedField;
    if fields != [] {
      FieldIsPlain(fields[0]);
      MoreFieldsPlain(fields[1..]);
    }
  }

  // ----- Key order -----

  predicate Before(a: string, b: string) {
    StringLeq(a, b) && a != b
  }

  /** The keys of every object are distinct and in order, as `sort_keys` leaves them. */
  predicate Ascending(j: Json) {
    match j
    case Text(_) => true
    case Number(_) => true
    case List(items) => forall i | 0 <= i < |items| :: Ascending(items[i])
    case Object(fields) =>
      && (forall i | 0 < i < |fields| :: Before(fields[i - 1].key, fields[i].key))
      && (forall i | 0 <= i < |fields| :: Ascending(fields[i].value))
  }
}
