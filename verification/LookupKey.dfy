/** The flat lookup key `method:json` can be split in only one way, whatever the method string holds. */
module LookupKey {
  import opened Json

  /** A scanner for printed JSON: whether it stands in a string, and how many brackets are open. Outside strings a
      backslash, an unmatched closing bracket, or a colon under no bracket cannot occur. */
  datatype Scan = Outside(depth: nat) | Inside(depth: nat) | Escaped(depth: nat) | Bad

  function Step(st: Scan, c: char): Scan {
    match st
    case Bad => Bad
    case Escaped(d) => Inside(d)
    case Inside(d) => if c == '"' then Outside(d) else if c == '\\' then Escaped(d) else Inside(d)
    case Outside(d) =>
      if c == '"' then Inside(d)
      else if c == '\\' then Bad
      else if c == '[' || c == '{' then Outside(d + 1)
      else if c == ']' || c == '}' then (if d == 0 then Bad else Outside(d - 1))
      else if c == ':' then (if d == 0 then Bad else Outside(d))
      else Outside(d)
  }

  function Run(st: Scan, s: string): Scan
    decreases s
  {
    if s == [] then st else Run(Step(st, s[0]), s[1..])
  }

  lemma {:induction false} RunConcat(st: Scan, a: string, b: string)
    ensures Run(st, a + b) == Run(Run(st, a), b)
    decreases a
  {
    if a == [] {
      assert a + b == b;
    } else {
      RunConcat(Step(st, a[0]), a[1..], b);
      assert (a + b)[1..] == a[1..] + b;
    }
  }

  lemma RunOne(st: Scan, c: char)
    ensures Run(st, [c]) == Step(st, c)
  {
    assert [c][1..] == [];
  }

  lemma {:induction false} RunBad(s: string)
    ensures Run(Bad, s) == Bad
  {
    if s == [] {
    } else {
      RunBad(s[1..]);
    }
  }

  // ------------------------------------------------------------------------
  // Printed JSON is balanced
  // ------------------------------------------------------------------------

  lemma RunPlain(st: Scan, s: string)
    requires st.Inside? && forall i :: 0 <= i < |s| ==> s[i] != '"' && s[i] != '\\'
    ensures Run(st, s) == st
  {
  }

  lemma RunEscapeChar(c: char, d: nat)
    ensures Run(Inside(d), EscapeChar(c)) == Inside(d)
  {
    var e := EscapeChar(c);
    if |e| == 1 {
      RunPlain(Inside(d), e);
    } else {
      assert e == ['\\'] + ([e[1]] + e[2..]);
      RunConcat(Inside(d), ['\\'], [e[1]] + e[2..]);
      RunConcat(Escaped(d), [e[1]], e[2..]);
      RunOne(Inside(d), '\\');
      RunOne(Escaped(d), e[1]);
      RunPlain(Inside(d), e[2..]);
    }
  }

  lemma {:induction false} RunEscape(s: string, d: nat)
    ensures Run(Inside(d), Escape(s)) == Inside(d)
  {
    if s == [] {
    } else {
      RunEscapeChar(s[0], d);
      RunEscape(s[1..], d);
      RunConcat(Inside(d), EscapeChar(s[0]), Escape(s[1..]));
    }
  }

  lemma RunQuote(s: string, d: nat)
    ensures Run(Outside(d), Quote(s)) == Outside(d)
  {
    RunConcat(Outside(d), "\"", Escape(s) + "\"");
    RunConcat(Inside(d), Escape(s), "\"");
    RunEscape(s, d);
    RunOne(Outside(d), '"');
    RunOne(Inside(d), '"');
  }

  /** Characters that leave the scanner where it is outside strings. */
  predicate Neutral(c: char) {
    c != '"' && c != '\\' && c != '[' && c != '{' && c != ']' && c != '}' && c != ':'
  }

  lemma {:induction false} RunNeutral(s: string, d: nat)
    requires forall i :: 0 <= i < |s| ==> Neutral(s[i])
    ensures Run(Outside(d), s) == Outside(d)
  {
    if s == [] {
    } else {
      RunNeutral(s[1..], d);
    }
  }

  lemma RunBracketed(open: char, inner: string, close: char, d: nat)
    requires (open == '[' && close == ']') || (open == '{' && close == '}')
    requires Run(Outside(d + 1), inner) == Outside(d + 1)
    ensures Run(Outside(d), [open] + (inner + [close])) == Outside(d)
  {
    RunConcat(Outside(d), [open], inner + [close]);
    RunConcat(Outside(d + 1), inner, [close]);
    RunOne(Outside(d), open);
    RunOne(Outside(d + 1), close);
  }

  lemma RunSeparated(a: string, c: char, b: string, d: nat)
    requires Run(Outside(d), a) == Outside(d) && Run(Outside(d), b) == Outside(d)
    requires c == ',' || (c == ':' && d > 0)
    ensures Run(Outside(d), a + ([c] + b)) == Outside(d)
  {
    RunConcat(Outside(d), a, [c] + b);
    RunConcat(Outside(d), [c], b);
    RunOne(Outside(d), c);
  }

  /** Scanning a printed value from any depth ends at that depth, outside strings, and never goes bad. */
  lemma {:induction false} RunPrint(v: Json, d: nat)
    requires WellFormed(v)
    ensures Run(Outside(d), Print(v)) == Outside(d)
    decreases v, 0
  {
    match v {
      case Null => RunNeutral("null", d);
      case Bool(b) => RunNeutral(if b then "true" else "false", d);
      case Number(text) => RunNeutral(text, d);
      case String(s) => RunQuote(s, d);
      case Array(items) =>
        RunItems(items, d + 1);
        RunBracketed('[', PrintItems(items), ']', d);
      case Object(fields) =>
        RunFields(fields, d + 1);
        RunBracketed('{', PrintFields(fields), '}', d);
    }
  }

  lemma {:induction false} RunItems(items: seq<Json>, d: nat)
    requires AllWellFormed(items)
    ensures Run(Outside(d), PrintItems(items)) == Outside(d)
    decreases items, 1
  {
    if items == [] {
    } else {
      RunPrint(items[0], d);
      if |items| > 1 {
        RunItems(items[1..], d);
        RunSeparated(Print(items[0]), ',', PrintItems(items[1..]), d);
      }
    }
  }

  lemma {:induction false} RunFields(fields: seq<Field>, d: nat)
    requires AllFieldsWellFormed(fields) && d > 0
    ensures Run(Outside(d), PrintFields(fields)) == Outside(d)
    decreases fields, 1
  {
    if fields == [] {
    } else {
      RunQuote(fields[0].name, d);
      RunPrint(fields[0].value, d);
      RunSeparated(Quote(fields[0].name), ':', Print(fields[0].value), d);
      if |fields| > 1 {
        RunFields(fields[1..], d);
        RunSeparated(PrintField(fields[0]), ',', PrintFields(fields[1..]), d);
      }
    }
  }

  // ------------------------------------------------------------------------
  // No value ends in `:` and another value
  // ------------------------------------------------------------------------

  predicate Opposed(p: Scan, q: Scan) {
    (p.Outside? && q.Inside?) || (p.Inside? && q.Outside?)
  }

  /** Two scans of one text that disagree on being in a string go on disagreeing until one goes bad. */
  lemma {:induction false} RunOpposed(p: Scan, q: Scan, s: string)
    requires Opposed(p, q)
    ensures Run(p, s) == Bad || Run(q, s) == Bad || Opposed(Run(p, s), Run(q, s))
    decreases s
  {
    if s == [] {
    } else {
      var p', q' := Step(p, s[0]), Step(q, s[0]);
      if p' == Bad || q' == Bad {
        RunBad(s[1..]);
      } else {
        RunOpposed(p', q', s[1..]);
      }
    }
  }

  lemma NoValueAfterColon(v: Json, x: string, w: Json)
    requires WellFormed(v) && WellFormed(w)
    ensures Print(v) != x + (":" + Print(w))
  {
    var st := Run(Outside(0), x);
    var st' := Step(st, ':');
    RunPrint(v, 0);
    RunPrint(w, 0);
    RunConcat(Outside(0), x, ":" + Print(w));
    RunConcat(st, ":", Print(w));
    RunOne(st, ':');
    match st'
    case Bad => RunBad(Print(w));
    case Outside(d) => RunPrint(w, d);
    case Inside(d) => RunOpposed(Outside(0), Inside(d), Print(w));
    case Escaped(d) =>
  }

  // ------------------------------------------------------------------------
  // The key
  // ------------------------------------------------------------------------

  /** `format!("{}:{}", method, params)` for params that are already normalised. */
  function Key(rpcMethod: string, params: Json): string {
    rpcMethod + (":" + Print(params))
  }

  /** One text split at two colons: the later rest follows the first colon. */
  lemma KeySplits(m: string, v: string, n: string, w: string)
    requires m + (":" + v) == n + (":" + w) && |m| < |n|
    ensures v == n[|m| + 1..] + (":" + w)
  {
    var key, x := m + (":" + v), n[|m| + 1..];
    assert v == key[|m| + 1..];
    assert n == n[..|m| + 1] + x;
    assert key == n[..|m| + 1] + (x + (":" + w));
  }

  lemma LongerMethod(m: string, n: string, v: Json, w: Json)
    requires WellFormed(v) && WellFormed(w)
    requires Key(m, v) == Key(n, w)
    ensures |m| >= |n|
  {
    if |m| < |n| {
      KeySplits(m, Print(v), n, Print(w));
      NoValueAfterColon(v, n[|m| + 1..], w);
    }
  }

  lemma SameSplit(m: string, v: string, n: string, w: string)
    requires m + (":" + v) == n + (":" + w) && |m| == |n|
    ensures m == n && v == w
  {
    var key := m + (":" + v);
    assert m == key[..|m|] && n == key[..|m|];
    assert v == key[|m| + 1..] && w == key[|m| + 1..];
  }

  /** Equal keys come from equal methods and equal params. */
  lemma KeyUnique(m: string, n: string, v: Json, w: Json)
    requires WellFormed(v) && WellFormed(w)
    requires Key(m, v) == Key(n, w)
    ensures m == n && v == w
  {
    LongerMethod(m, n, v, w);
    LongerMethod(n, m, w, v);
    SameSplit(m, Print(v), n, Print(w));
    PrintInjective(v, w);
  }
}
