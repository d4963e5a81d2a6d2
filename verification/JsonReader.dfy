/** A reader for compact JSON texts as section 7 of RFC 8259 and its neighbours define them, and the proof that it reads every
    printed value back. */
module JsonReader {
  import opened Felts
  import opened Json

  // ------------------------------------------------------------------------
  // Reading. Each function returns what it read and what is left of the text.
  // ------------------------------------------------------------------------

  /** The four hex digits after `\u`; halves of surrogate pairs are not read. */
  function ReadCodePoint(s: string): Option<char> {
    if |s| < 4 then None
    else
      match (DigitValue(s[0]), DigitValue(s[1]), DigitValue(s[2]), DigitValue(s[3]))
      case (Some(a), Some(b), Some(c), Some(d)) =>
        var n := 4096 * a + 256 * b + 16 * c + d;
        if n < 0xD800 || 0xE000 <= n then Some(n as char) else None
      case _ => None
  }

  /** The character that an escape stands for, from behind the reverse solidus. */
  function ReadEscape(s: string): (r: Option<(char, string)>)
    ensures r.Some? ==> |r.value.1| < |s|
  {
    if s == "" then None
    else if s[0] == '"' || s[0] == '\\' || s[0] == '/' then Some((s[0], s[1..]))
    else if s[0] == 'b' then Some(('\U{8}', s[1..]))
    else if s[0] == 'f' then Some(('\U{c}', s[1..]))
    else if s[0] == 'n' then Some(('\n', s[1..]))
    else if s[0] == 'r' then Some(('\r', s[1..]))
    else if s[0] == 't' then Some(('\t', s[1..]))
    else if s[0] == 'u' && ReadCodePoint(s[1..]).Some? then Some((ReadCodePoint(s[1..]).value, s[5..]))
    else None
  }

  /** The first character of a string, escaped or not; a control character must be escaped. */
  function ReadChar(s: string): (r: Option<(char, string)>)
    ensures r.Some? ==> |r.value.1| < |s|
  {
    if s == "" || s[0] == '"' then None
    else if s[0] == '\\' then ReadEscape(s[1..])
    else if s[0] < ' ' then None
    else Some((s[0], s[1..]))
  }

  /** A string from behind its opening quotation mark. */
  function ReadString(s: string): (r: Option<(string, string)>)
    ensures r.Some? ==> |r.value.1| < |s|
    decreases |s|
  {
    if s == "" then None
    else if s[0] == '"' then Some(("", s[1..]))
    else
      match ReadChar(s)
      case None => None
      case Some((c, rest)) =>
        match ReadString(rest)
        case None => None
        case Some((text, left)) => Some(([c] + text, left))
  }

  function NumberLength(s: string): (n: nat)
    ensures n <= |s|
  {
    if s == "" || !NumberChar(s[0]) then 0 else 1 + NumberLength(s[1..])
  }

  function ReadWord(word: string, v: Json, s: string): (r: Option<(Json, string)>)
    requires word != ""
    ensures r.Some? ==> |r.value.1| < |s|
  {
    if word <= s then Some((v, s[|word|..])) else None
  }

  function ReadValue(s: string): (r: Option<(Json, string)>)
    ensures r.Some? ==> |r.value.1| < |s|
    decreases |s|, 1
  {
    if s == "" then None
    else if s[0] == 'n' then ReadWord("null", Null, s)
    else if s[0] == 't' then ReadWord("true", Bool(true), s)
    else if s[0] == 'f' then ReadWord("false", Bool(false), s)
    else if s[0] == '"' then
      match ReadString(s[1..])
      case None => None
      case Some((text, rest)) => Some((String(text), rest))
    else if s[0] == '[' then
      if |s| > 1 && s[1] == ']' then Some((Array([]), s[2..]))
      else
        match ReadItems(s[1..])
        case None => None
        case Some((items, rest)) => Some((Array(items), rest))
    else if s[0] == '{' then
      if |s| > 1 && s[1] == '}' then Some((Object([]), s[2..]))
      else
        match ReadFields(s[1..])
        case None => None
        case Some((fields, rest)) => Some((Object(fields), rest))
    else if '0' <= s[0] <= '9' || s[0] == '-' then Some((Number(s[..NumberLength(s)]), s[NumberLength(s)..]))
    else None
  }

  /** At least one item, up to the closing bracket. */
  function ReadItems(s: string): (r: Option<(seq<Json>, string)>)
    ensures r.Some? ==> |r.value.1| < |s|
    decreases |s|, 2
  {
    match ReadValue(s)
    case None => None
    case Some((v, rest)) =>
      if rest == "" then None
      else if rest[0] == ']' then Some(([v], rest[1..]))
      else if rest[0] != ',' then None
      else
        match ReadItems(rest[1..])
        case None => None
        case Some((items, left)) => Some(([v] + items, left))
  }

  function ReadField(s: string): (r: Option<(Field, string)>)
    ensures r.Some? ==> |r.value.1| < |s|
    decreases |s|, 1
  {
    if s == "" || s[0] != '"' then None
    else
      match ReadString(s[1..])
      case None => None
      case Some((name, rest)) =>
        if rest == "" || rest[0] != ':' then None
        else
          match ReadValue(rest[1..])
          case None => None
          case Some((v, left)) => Some((Field(name, v), left))
  }

  /** At least one field, up to the closing bracket. */
  function ReadFields(s: string): (r: Option<(seq<Field>, string)>)
    ensures r.Some? ==> |r.value.1| < |s|
    decreases |s|, 2
  {
    match ReadField(s)
    case None => None
    case Some((f, rest)) =>
      if rest == "" then None
      else if rest[0] == '}' then Some(([f], rest[1..]))
      else if rest[0] != ',' then None
      else
        match ReadFields(rest[1..])
        case None => None
        case Some((fields, left)) => Some(([f] + fields, left))
  }

  /** A whole text. */
  function Read(s: string): Option<Json> {
    match ReadValue(s)
    case None => None
    case Some((v, rest)) => if rest == "" then Some(v) else None
  }

  // ------------------------------------------------------------------------
  // Reading what was printed
  // ------------------------------------------------------------------------

  lemma NibbleRead(n: nat)
    requires n < 16
    ensures DigitValue(HexNibble(n)) == Some(n)
  {
  }

  lemma ReadEscapedChar(c: char, r: string)
    ensures ReadChar(EscapeChar(c) + r) == Some((c, r))
    ensures EscapeChar(c)[0] != '"'
  {
    var e := EscapeChar(c);
    var s := e + r;
    assert s[0] == e[0];
    if |e| == 1 {
      assert s[1..] == r;
    } else if |e| == 2 {
      assert s[1..][0] == e[1] && s[1..][1..] == r;
    } else {
      NibbleRead(c as nat / 16);
      NibbleRead(c as nat % 16);
      var t := s[1..];
      assert t[0] == e[1] && t[5..] == r;
      assert t[1..][0] == e[2] && t[1..][1] == e[3] && t[1..][2] == e[4] && t[1..][3] == e[5];
    }
  }

  lemma StringStep(s: string, c: char, rest: string, text: string, left: string)
    requires s != "" && s[0] != '"' && ReadChar(s) == Some((c, rest)) && ReadString(rest) == Some((text, left))
    ensures ReadString(s) == Some(([c] + text, left))
  {
    hide ReadChar;
  }

  lemma EscapeFirst(text: string, more: string)
    requires text != ""
    ensures Escape(text) + more == EscapeChar(text[0]) + (Escape(text[1..]) + more)
  {
    hide EscapeChar;
  }

  lemma ReadNothing(r: string)
    ensures ReadString("\"" + r) == Some(("", r)) && Escape("") == ""
  {
    assert ("\"" + r)[1..] == r;
  }

  lemma {:induction false} ReadEscaped(text: string, r: string)
    ensures ReadString(Escape(text) + ("\"" + r)) == Some((text, r))
  {
    hide *;
    var close := "\"" + r;
    ReadNothing(r);
    if text == "" {
      assert "" + close == close;
    } else {
      var rest := Escape(text[1..]) + close;
      EscapeFirst(text, close);
      ReadEscapedChar(text[0], rest);
      ReadEscaped(text[1..], r);
      StringStep(EscapeChar(text[0]) + rest, text[0], rest, text[1..], r);
      assert text == [text[0]] + text[1..];
    }
  }

  lemma ReadQuoted(text: string, r: string)
    ensures var s := Quote(text) + r;
            s != "" && s[0] == '"' && ReadString(s[1..]) == Some((text, r))
  {
    hide Escape;
    ReadEscaped(text, r);
    assert (Quote(text) + r)[1..] == Escape(text) + ("\"" + r);
  }

  lemma {:induction false} NumberStops(text: string, r: string)
    requires forall i :: 0 <= i < |text| ==> NumberChar(text[i])
    requires Delimited(r)
    ensures NumberLength(text + r) == |text|
  {
    if text == "" {
      assert text + r == r;
    } else {
      NumberStops(text[1..], r);
      assert (text + r)[1..] == text[1..] + r;
    }
  }

  /** A printed value is read back from the front of a text. */
  lemma {:induction false} ReadPrinted(v: Json, r: string)
    requires WellFormed(v) && Delimited(r)
    ensures ReadValue(Print(v) + r) == Some((v, r))
    decreases v, 0
  {
    var s := Print(v) + r;
    FirstChar(v);
    assert s[0] == Print(v)[0];
    match v {
      case Null =>
        assert "null" <= s && s[4..] == r;
      case Bool(b) =>
        assert Print(v) <= s && s[|Print(v)|..] == r;
      case Number(text) =>
        NumberStops(text, r);
        assert s[..|text|] == text && s[|text|..] == r;
      case String(text) =>
        ReadQuoted(text, r);
      case Array(items) =>
        Bracketed(v, r);
        ReadArray(items, r);
      case Object(fields) =>
        Bracketed(v, r);
        ReadObject(fields, r);
    }
  }

  lemma {:induction false} ReadArray(items: seq<Json>, r: string)
    requires AllWellFormed(items) && Delimited(r)
    ensures ReadValue("[" + (PrintItems(items) + ("]" + r))) == Some((Array(items), r))
    decreases items, 2
  {
    var inner := PrintItems(items) + ("]" + r);
    var s := "[" + inner;
    assert s[1..] == inner;
    if items == [] {
      assert inner == "]" + r;
      assert s[2..] == r;
    } else {
      NoItems(items, r);
      ReadPrintedItems(items, r);
      assert s[1] == inner[0];
    }
  }

  lemma ItemsStep(s: string, v: Json, tail: string)
    requires ReadValue(s) == Some((v, tail)) && tail != ""
    ensures tail[0] == ']' ==> ReadItems(s) == Some(([v], tail[1..]))
    ensures tail[0] == ',' && ReadItems(tail[1..]).Some? ==>
              ReadItems(s) == Some(([v] + ReadItems(tail[1..]).value.0, ReadItems(tail[1..]).value.1))
  {
    hide ReadValue;
  }

  lemma ItemsTailText(items: seq<Json>, r: string)
    requires items != []
    ensures var tail := ItemsTail(items, r);
            && tail != ""
            && (|items| == 1 ==> tail[0] == ']' && tail[1..] == r)
            && (|items| > 1 ==> tail[0] == ',' && tail[1..] == PrintItems(items[1..]) + ("]" + r))
  {
    hide PrintItems;
  }

  lemma FirstItemWellFormed(items: seq<Json>)
    requires items != [] && AllWellFormed(items)
    ensures WellFormed(items[0]) && AllWellFormed(items[1..])
  {
  }

  lemma {:induction false} ReadPrintedItems(items: seq<Json>, r: string)
    requires items != [] && AllWellFormed(items)
    ensures ReadItems(PrintItems(items) + ("]" + r)) == Some((items, r))
    decreases items, 1
  {
    hide *;
    var tail := ItemsTail(items, r);
    FirstItemWellFormed(items);
    ItemsHead(items, r);
    ItemsTailText(items, r);
    ReadPrinted(items[0], tail);
    ItemsStep(Print(items[0]) + tail, items[0], tail);
    if |items| == 1 {
      assert items == [items[0]];
    } else {
      ReadPrintedItems(items[1..], r);
      assert items == [items[0]] + items[1..];
    }
  }

  lemma {:induction false} ReadObject(fields: seq<Field>, r: string)
    requires AllFieldsWellFormed(fields) && Delimited(r)
    ensures ReadValue("{" + (PrintFields(fields) + ("}" + r))) == Some((Object(fields), r))
    decreases fields, 2
  {
    var inner := PrintFields(fields) + ("}" + r);
    var s := "{" + inner;
    assert s[1..] == inner;
    if fields == [] {
      assert inner == "}" + r;
      assert s[2..] == r;
    } else {
      NoFields(fields, r);
      ReadPrintedFields(fields, r);
      assert s[1] == inner[0];
    }
  }

  lemma FieldsStep(s: string, f: Field, tail: string)
    requires ReadField(s) == Some((f, tail)) && tail != ""
    ensures tail[0] == '}' ==> ReadFields(s) == Some(([f], tail[1..]))
    ensures tail[0] == ',' && ReadFields(tail[1..]).Some? ==>
              ReadFields(s) == Some(([f] + ReadFields(tail[1..]).value.0, ReadFields(tail[1..]).value.1))
  {
    hide ReadField;
  }

  lemma FieldsTailText(fields: seq<Field>, r: string)
    requires fields != []
    ensures var tail := FieldsTail(fields, r);
            && tail != ""
            && (|fields| == 1 ==> tail[0] == '}' && tail[1..] == r)
            && (|fields| > 1 ==> tail[0] == ',' && tail[1..] == PrintFields(fields[1..]) + ("}" + r))
  {
    hide PrintFields;
  }

  lemma FirstFieldWellFormed(fields: seq<Field>)
    requires fields != [] && AllFieldsWellFormed(fields)
    ensures WellFormed(fields[0].value) && AllFieldsWellFormed(fields[1..])
  {
  }

  lemma {:induction false} ReadPrintedFields(fields: seq<Field>, r: string)
    requires fields != [] && AllFieldsWellFormed(fields)
    ensures ReadFields(PrintFields(fields) + ("}" + r)) == Some((fields, r))
    decreases fields, 1
  {
    hide *;
    var tail := FieldsTail(fields, r);
    FirstFieldWellFormed(fields);
    FieldsHead(fields, r);
    FieldsTailText(fields, r);
    ReadPrintedField(fields[0], tail);
    FieldsStep(Quote(fields[0].name) + (":" + (Print(fields[0].value) + tail)), fields[0], tail);
    if |fields| == 1 {
      assert fields == [fields[0]];
    } else {
      ReadPrintedFields(fields[1..], r);
      assert fields == [fields[0]] + fields[1..];
    }
  }

  lemma {:induction false} ReadPrintedField(f: Field, tail: string)
    requires WellFormed(f.value) && Delimited(tail)
    ensures ReadField(Quote(f.name) + (":" + (Print(f.value) + tail))) == Some((f, tail))
    decreases f, 0
  {
    var rest := ":" + (Print(f.value) + tail);
    ReadQuoted(f.name, rest);
    ReadPrinted(f.value, tail);
    hide Print;
    hide Quote;
    assert rest[1..] == Print(f.value) + tail;
  }

  /** Reading undoes printing. */
  lemma ReadPrint(v: Json)
    requires WellFormed(v)
    ensures Read(Print(v)) == Some(v)
  {
    ReadPrinted(v, "");
    assert Print(v) + "" == Print(v);
  }
}
