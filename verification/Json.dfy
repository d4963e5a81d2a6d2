/** JSON values, their compact printed form (RFC 8259), and the proof that the printed form is unambiguous. */
module Json {

  /** A number is kept as its printed text. Object fields are listed in the order they are printed. */
  datatype Json =
    | Null
    | Bool(b: bool)
    | Number(text: string)
    | String(s: string)
    | Array(items: seq<Json>)
    | Object(fields: seq<Field>)

  datatype Field = Field(name: string, value: Json)

  // ------------------------------------------------------------------------
  // Printing
  // ------------------------------------------------------------------------

  function HexNibble(n: nat): char
    requires n < 16
  {
    if n < 10 then '0' + n as char else 'a' + (n - 10) as char
  }

  /** Section 7 of RFC 8259: quotation mark, reverse solidus and the control characters are escaped. */
  function EscapeChar(c: char): (e: string)
    ensures e != [] && e[0] != '"'
  {
    if c == '"' then "\\\""
    else if c == '\\' then "\\\\"
    else if c == 8 as char then "\\b"
    else if c == 12 as char then "\\f"
    else if c == '\n' then "\\n"
    else if c == '\r' then "\\r"
    else if c == '\t' then "\\t"
    else if c < ' ' then "\\u00" + [HexNibble(c as nat / 16), HexNibble(c as nat % 16)]
    else [c]
  }

  function Escape(s: string): string {
    if s == [] then [] else EscapeChar(s[0]) + Escape(s[1..])
  }

  function Quote(s: string): string {
    "\"" + (Escape(s) + "\"")
  }

  function Print(v: Json): string
    decreases v, 0
  {
    match v
    case Null => "null"
    case Bool(b) => if b then "true" else "false"
    case Number(text) => text
    case String(s) => Quote(s)
    case Array(items) => "[" + (PrintItems(items) + "]")
    case Object(fields) => "{" + (PrintFields(fields) + "}")
  }

  function PrintItems(items: seq<Json>): string
    decreases items, 0
  {
    if items == [] then []
    else if |items| == 1 then Print(items[0])
    else Print(items[0]) + ("," + PrintItems(items[1..]))
  }

  function PrintField(f: Field): string
    decreases f, 0
  {
    Quote(f.name) + (":" + Print(f.value))
  }

  function PrintFields(fields: seq<Field>): string
    decreases fields, 0
  {
    if fields == [] then []
    else if |fields| == 1 then PrintField(fields[0])
    else PrintField(fields[0]) + ("," + PrintFields(fields[1..]))
  }

  // ------------------------------------------------------------------------
  // Well-formed values
  // ------------------------------------------------------------------------

  predicate NumberChar(c: char) {
    '0' <= c <= '9' || c == '-' || c == '+' || c == '.' || c == 'e' || c == 'E'
  }

  predicate NumberText(t: string) {
    t != [] && ('0' <= t[0] <= '9' || t[0] == '-') && forall i :: 0 <= i < |t| ==> NumberChar(t[i])
  }

  /** Character-wise comparison; for UTF-8 strings it agrees with comparing bytes. */
  predicate LexLe(a: string, b: string) {
    a == [] || (b != [] && (a[0] < b[0] || (a[0] == b[0] && LexLe(a[1..], b[1..]))))
  }

  predicate SortedNames(fields: seq<Field>) {
    forall i, j :: 0 <= i < j < |fields| ==> LexLe(fields[i].name, fields[j].name) && fields[i].name != fields[j].name
  }

  /** Numbers are number texts, and objects list distinct names in order, as a sorted map prints them. */
  predicate WellFormed(v: Json)
    decreases v, 0
  {
    match v
    case Number(text) => NumberText(text)
    case Array(items) => AllWellFormed(items)
    case Object(fields) => SortedNames(fields) && AllFieldsWellFormed(fields)
    case _ => true
  }

  predicate AllWellFormed(items: seq<Json>)
    decreases items, 0
  {
    items == [] || (WellFormed(items[0]) && AllWellFormed(items[1..]))
  }

  predicate AllFieldsWellFormed(fields: seq<Field>)
    decreases fields, 0
  {
    fields == [] || (WellFormed(fields[0].value) && AllFieldsWellFormed(fields[1..]))
  }

  lemma {:induction false} WellFormedAt(items: seq<Json>, i: nat)
    requires AllWellFormed(items) && i < |items|
    ensures WellFormed(items[i])
  {
    if i == 0 {
    } else {
      WellFormedAt(items[1..], i - 1);
    }
  }

  lemma {:induction false} WellFormedAll(items: seq<Json>)
    requires forall i :: 0 <= i < |items| ==> WellFormed(items[i])
    ensures AllWellFormed(items)
  {
    if items == [] {
    } else {
      WellFormedAll(items[1..]);
    }
  }

  // ------------------------------------------------------------------------
  // The printed form is unambiguous
  // ------------------------------------------------------------------------

  lemma EscapeCharUnique(c: char, d: char, r: string, t: string)
    requires EscapeChar(c) + r == EscapeChar(d) + t
    ensures c == d && r == t
  {
    var x, y := EscapeChar(c) + r, EscapeChar(d) + t;
    assert x[0] == y[0];
    if |EscapeChar(c)| > 1 && |EscapeChar(d)| > 1 {
      assert x[1] == y[1];
      if |EscapeChar(c)| == 6 && |EscapeChar(d)| == 6 {
        assert x[4] == y[4] && x[5] == y[5];
        NibbleUnique(c as nat / 16, d as nat / 16);
        NibbleUnique(c as nat % 16, d as nat % 16);
      }
    }
    assert r == x[|EscapeChar(c)|..] && t == y[|EscapeChar(d)|..];
  }

  lemma NibbleUnique(a: nat, b: nat)
    requires a < 16 && b < 16
    ensures HexNibble(a) == HexNibble(b) ==> a == b
  {
  }

  /** An escaped string ends at its first bare quotation mark. */
  lemma {:induction false} EscapeUnique(a: string, b: string, r: string, t: string)
    requires Escape(a) + ("\"" + r) == Escape(b) + ("\"" + t)
    ensures a == b && r == t
  {
    hide EscapeChar;
    var x, y := Escape(a) + ("\"" + r), Escape(b) + ("\"" + t);
    if a == [] || b == [] {
      assert x[0] == y[0];
      assert a == [] && b == [];
      assert r == x[1..] && t == y[1..];
    } else {
      var restA, restB := Escape(a[1..]) + ("\"" + r), Escape(b[1..]) + ("\"" + t);
      assert x == EscapeChar(a[0]) + restA;
      assert y == EscapeChar(b[0]) + restB;
      EscapeCharUnique(a[0], b[0], restA, restB);
      EscapeUnique(a[1..], b[1..], r, t);
      assert a == [a[0]] + a[1..] && b == [b[0]] + b[1..];
    }
  }

  lemma QuoteUnique(a: string, b: string, r: string, t: string)
    requires Quote(a) + r == Quote(b) + t
    ensures a == b && r == t
  {
    hide Escape;
    var x, y := Escape(a) + ("\"" + r), Escape(b) + ("\"" + t);
    assert Quote(a) + r == "\"" + x;
    assert Quote(b) + t == "\"" + y;
    assert x == ("\"" + x)[1..] && y == ("\"" + y)[1..];
    EscapeUnique(a, b, r, t);
  }

  /** What may follow a value: nothing, or a separator or closing bracket. */
  predicate Delimited(r: string) {
    r == [] || r[0] == ',' || r[0] == ']' || r[0] == '}'
  }

  lemma NumberUnique(a: string, b: string, r: string, t: string)
    requires NumberText(a) && NumberText(b) && Delimited(r) && Delimited(t)
    requires a + r == b + t
    ensures a == b && r == t
  {
    NumberRun(a, b, r, t);
    NumberRun(b, a, t, r);
    var x, y := a + r, b + t;
    assert a == x[..|a|] && b == y[..|b|] && r == x[|a|..] && t == y[|b|..];
  }

  lemma NumberRun(a: string, b: string, r: string, t: string)
    requires NumberText(a) && NumberText(b) && Delimited(r)
    requires a + r == b + t
    ensures |a| >= |b|
  {
    var x := a + r;
    assert forall k :: 0 <= k < |b| ==> x[k] == b[k] && NumberChar(x[k]);
    assert |a| < |x| ==> x[|a|] == r[0];
  }

  /** The first character tells the kind of value; no value starts like a closing bracket or a separator. */
  lemma FirstChar(v: Json)
    requires WellFormed(v)
    ensures var p := Print(v);
            && p != []
            && (v.Null? <==> p[0] == 'n')
            && (v.Bool? <==> p[0] == 't' || p[0] == 'f')
            && (v.Number? <==> '0' <= p[0] <= '9' || p[0] == '-')
            && (v.String? <==> p[0] == '"')
            && (v.Array? <==> p[0] == '[')
            && (v.Object? <==> p[0] == '{')
            && p[0] != ']' && p[0] != '}' && p[0] != ','
  {
  }

  lemma SameKind(v: Json, w: Json, r: string, t: string)
    requires WellFormed(v) && WellFormed(w) && Print(v) + r == Print(w) + t
    ensures v.Null? == w.Null? && v.Number? == w.Number? && v.String? == w.String?
    ensures v.Array? == w.Array? && v.Object? == w.Object?
    ensures v.Bool? == w.Bool? && (v.Bool? ==> v == w)
  {
    FirstChar(v);
    FirstChar(w);
    var x, y := Print(v) + r, Print(w) + t;
    assert Print(v)[0] == x[0] == y[0] == Print(w)[0];
  }

  /** A bracketed text followed by more, with the opening bracket in front. */
  lemma Bracketed(v: Json, r: string)
    ensures v.Array? ==> Print(v) + r == "[" + (PrintItems(v.items) + ("]" + r))
    ensures v.Object? ==> Print(v) + r == "{" + (PrintFields(v.fields) + ("}" + r))
  {
    hide PrintItems;
    hide PrintFields;
  }

  lemma Unprefix(c: string, x: string, y: string)
    requires c + x == c + y
    ensures x == y
  {
    assert x == (c + x)[|c|..] && y == (c + y)[|c|..];
  }

  lemma {:induction false} PrintUnique(v: Json, w: Json, r: string, t: string)
    requires WellFormed(v) && WellFormed(w) && Delimited(r) && Delimited(t)
    requires Print(v) + r == Print(w) + t
    ensures v == w && r == t
    decreases v, 0
  {
    SameKind(v, w, r, t);
    Bracketed(v, r);
    Bracketed(w, t);
    match v {
      case Null =>
        Unprefix("null", r, t);
      case Bool(_) =>
        Unprefix(Print(v), r, t);
      case Number(a) =>
        NumberUnique(a, w.text, r, t);
      case String(a) =>
        QuoteUnique(a, w.s, r, t);
      case Array(a) =>
        hide Print;
        hide PrintItems;
        Unprefix("[", PrintItems(a) + ("]" + r), PrintItems(w.items) + ("]" + t));
        ItemsUnique(a, w.items, r, t);
      case Object(a) =>
        hide Print;
        hide PrintFields;
        Unprefix("{", PrintFields(a) + ("}" + r), PrintFields(w.fields) + ("}" + t));
        FieldsUnique(a, w.fields, r, t);
    }
  }

  function ItemsTail(items: seq<Json>, r: string): (s: string)
    requires items != []
    ensures Delimited(s)
  {
    if |items| == 1 then "]" + r else "," + (PrintItems(items[1..]) + ("]" + r))
  }

  lemma ItemsHead(items: seq<Json>, r: string)
    requires items != []
    ensures PrintItems(items) + ("]" + r) == Print(items[0]) + ItemsTail(items, r)
  {
  }

  lemma {:induction false} FirstItemUnique(a: seq<Json>, b: seq<Json>, r: string, t: string)
    requires a != [] && b != [] && AllWellFormed(a) && AllWellFormed(b)
    requires PrintItems(a) + ("]" + r) == PrintItems(b) + ("]" + t)
    ensures a[0] == b[0] && ItemsTail(a, r) == ItemsTail(b, t)
    decreases a, 0
  {
    ItemsHead(a, r);
    ItemsHead(b, t);
    hide Print;
    hide PrintItems;
    PrintUnique(a[0], b[0], ItemsTail(a, r), ItemsTail(b, t));
  }

  lemma ItemsTailUnique(a: seq<Json>, b: seq<Json>, r: string, t: string)
    requires a != [] && b != [] && ItemsTail(a, r) == ItemsTail(b, t)
    ensures |a| == 1 <==> |b| == 1
    ensures |a| == 1 ==> r == t
    ensures |a| > 1 ==> PrintItems(a[1..]) + ("]" + r) == PrintItems(b[1..]) + ("]" + t)
  {
    hide PrintItems;
    var p, q := ItemsTail(a, r), ItemsTail(b, t);
    assert p[0] == q[0];
    assert |a| == 1 ==> r == p[1..];
    assert |b| == 1 ==> t == q[1..];
    assert |a| > 1 ==> p[1..] == PrintItems(a[1..]) + ("]" + r);
    assert |b| > 1 ==> q[1..] == PrintItems(b[1..]) + ("]" + t);
  }

  lemma NoItems(a: seq<Json>, r: string)
    requires AllWellFormed(a)
    ensures a == [] <==> (PrintItems(a) + ("]" + r))[0] == ']'
    ensures a == [] ==> (PrintItems(a) + ("]" + r))[1..] == r
  {
    if a != [] {
      ItemsHead(a, r);
      FirstChar(a[0]);
    }
  }

  lemma {:induction false} ItemsUnique(a: seq<Json>, b: seq<Json>, r: string, t: string)
    requires AllWellFormed(a) && AllWellFormed(b)
    requires PrintItems(a) + ("]" + r) == PrintItems(b) + ("]" + t)
    ensures a == b && r == t
    decreases a, 1
  {
    hide PrintItems;
    NoItems(a, r);
    NoItems(b, t);
    if a == [] {
    } else {
      FirstItemUnique(a, b, r, t);
      ItemsTailUnique(a, b, r, t);
      if |a| == 1 {
      } else {
        ItemsUnique(a[1..], b[1..], r, t);
      }
      assert a == [a[0]] + a[1..] && b == [b[0]] + b[1..];
    }
  }

  function FieldsTail(fields: seq<Field>, r: string): (s: string)
    requires fields != []
    ensures Delimited(s)
  {
    if |fields| == 1 then "}" + r else "," + (PrintFields(fields[1..]) + ("}" + r))
  }

  lemma FieldsText(fields: seq<Field>)
    requires fields != []
    ensures |fields| == 1 ==> PrintFields(fields) == Quote(fields[0].name) + (":" + Print(fields[0].value))
    ensures |fields| > 1 ==>
              PrintFields(fields)
              == (Quote(fields[0].name) + (":" + Print(fields[0].value))) + ("," + PrintFields(fields[1..]))
  {
    hide Print;
    hide Quote;
  }

  lemma FieldsHead(fields: seq<Field>, r: string)
    requires fields != []
    ensures PrintFields(fields) + ("}" + r)
            == Quote(fields[0].name) + (":" + (Print(fields[0].value) + FieldsTail(fields, r)))
  {
    FieldsText(fields);
    assert FieldsTail(fields, r) == if |fields| == 1 then "}" + r else "," + (PrintFields(fields[1..]) + ("}" + r));
    hide *;
    var q, p, rest, close := Quote(fields[0].name), Print(fields[0].value), PrintFields(fields[1..]), "}" + r;
    if |fields| == 1 {
      Associate(q, ":" + p, close);
      Associate(":", p, close);
    } else {
      Associate(q + (":" + p), "," + rest, close);
      Associate(",", rest, close);
      Associate(q, ":" + p, "," + (rest + close));
      Associate(":", p, "," + (rest + close));
    }
  }

  lemma Associate(a: string, b: string, c: string)
    ensures (a + b) + c == a + (b + c)
  {
  }

  lemma {:induction false} FirstFieldUnique(a: seq<Field>, b: seq<Field>, r: string, t: string)
    requires a != [] && b != [] && AllFieldsWellFormed(a) && AllFieldsWellFormed(b)
    requires PrintFields(a) + ("}" + r) == PrintFields(b) + ("}" + t)
    ensures a[0] == b[0] && FieldsTail(a, r) == FieldsTail(b, t)
    decreases a, 0
  {
    FieldsHead(a, r);
    FieldsHead(b, t);
    hide Print;
    hide PrintFields;
    hide Quote;
    var m, n := Print(a[0].value) + FieldsTail(a, r), Print(b[0].value) + FieldsTail(b, t);
    QuoteUnique(a[0].name, b[0].name, ":" + m, ":" + n);
    assert m == (":" + m)[1..] && n == (":" + n)[1..];
    PrintUnique(a[0].value, b[0].value, FieldsTail(a, r), FieldsTail(b, t));
  }

  /** A tail tells whether more fields follow. */
  lemma FieldsTailUnique(a: seq<Field>, b: seq<Field>, r: string, t: string)
    requires a != [] && b != [] && FieldsTail(a, r) == FieldsTail(b, t)
    ensures |a| == 1 <==> |b| == 1
    ensures |a| == 1 ==> r == t
    ensures |a| > 1 ==> PrintFields(a[1..]) + ("}" + r) == PrintFields(b[1..]) + ("}" + t)
  {
    hide PrintFields;
    var p, q := FieldsTail(a, r), FieldsTail(b, t);
    assert p[0] == q[0];
    assert |a| == 1 ==> r == p[1..];
    assert |b| == 1 ==> t == q[1..];
    assert |a| > 1 ==> p[1..] == PrintFields(a[1..]) + ("}" + r);
    assert |b| > 1 ==> q[1..] == PrintFields(b[1..]) + ("}" + t);
  }

  lemma NoFields(a: seq<Field>, r: string)
    ensures a == [] <==> (PrintFields(a) + ("}" + r))[0] == '}'
    ensures a == [] ==> (PrintFields(a) + ("}" + r))[1..] == r
  {
    if a != [] {
      FieldsHead(a, r);
    }
  }

  lemma {:induction false} FieldsUnique(a: seq<Field>, b: seq<Field>, r: string, t: string)
    requires AllFieldsWellFormed(a) && AllFieldsWellFormed(b)
    requires PrintFields(a) + ("}" + r) == PrintFields(b) + ("}" + t)
    ensures a == b && r == t
    decreases a, 1
  {
    hide PrintFields;
    NoFields(a, r);
    NoFields(b, t);
    if a == [] {
    } else {
      FirstFieldUnique(a, b, r, t);
      FieldsTailUnique(a, b, r, t);
      if |a| == 1 {
      } else {
        FieldsUnique(a[1..], b[1..], r, t);
      }
      assert a == [a[0]] + a[1..] && b == [b[0]] + b[1..];
    }
  }

  /** Equal texts come from equal values. */
  lemma PrintInjective(v: Json, w: Json)
    requires WellFormed(v) && WellFormed(w) && Print(v) == Print(w)
    ensures v == w
  {
    assert Print(v) + [] == Print(v) && Print(w) + [] == Print(w);
    PrintUnique(v, w, [], []);
  }
}
