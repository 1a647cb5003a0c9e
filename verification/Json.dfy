/**
 * `JSON.stringify` on values made of strings, numbers, lists and objects. Every function here writes a
 * value in front of the text `k` that follows it; the text of a value alone is obtained with an empty
 * `k`. Each form can be read back: what it writes determines both the value and what follows.
 */
module Json {
  predicate IsNumeral(c: char) {
    '0' <= c <= '9' || c == '+' || c == '-' || c == '.' || c == 'e'
  }

  /** A finite number, by the text that JavaScript prints for it. */
  type Number = s: string | s != "" && forall i | 0 <= i < |s| :: IsNumeral(s[i]) witness "0"

  /** An object has its fields in the order in which JavaScript lists its keys. */
  datatype Value =
    | Null
    | Bool(bit: bool)
    | Num(number: Number)
    | Str(text: string)
    | Arr(items: seq<Value>)
    | Obj(fields: seq<Field>)

  datatype Field = Field(key: string, value: Value)

  /** A transaction: an object with any keys in any order. */
  datatype Transaction = Transaction(fields: seq<Field>)

  // ----- strings -----

  function HexDigit(d: nat): char
    requires d < 16
  {
    "0123456789abcdef"[d]
  }

  function EscapeChar(c: char): (s: string)
    ensures s != ""
  {
    if c == '"' then "\\\""
    else if c == '\\' then "\\\\"
    else if c == 8 as char then "\\b"
    else if c == 9 as char then "\\t"
    else if c == 10 as char then "\\n"
    else if c == 12 as char then "\\f"
    else if c == 13 as char then "\\r"
    else if c < 32 as char then "\\u00" + [HexDigit(c as int / 16), HexDigit(c as int % 16)]
    else [c]
  }

  function EscapeTo(s: string, k: string): string {
    if s == "" then k else EscapeChar(s[0]) + EscapeTo(s[1..], k)
  }

  function QuoteTo(s: string, k: string): string {
    "\"" + EscapeTo(s, "\"" + k)
  }

  // ----- values -----

  function ValueTo(v: Value, k: string): string
    decreases v
  {
    match v
    case Null => "null" + k
    case Bool(bit) => (if bit then "true" else "false") + k
    case Num(number) => number + k
    case Str(text) => QuoteTo(text, k)
    case Arr(items) => "[" + ItemsTo(items, k)
    case Obj(fields) => "{" + FieldsTo(fields, k)
  }

  function ItemsTo(items: seq<Value>, k: string): string
    decreases items, 1
  {
    if items == [] then "]" + k else ValueTo(items[0], MoreTo(items[1..], k))
  }

  function MoreTo(items: seq<Value>, k: string): string
    decreases items, 0
  {
    if items == [] then "]" + k else "," + ValueTo(items[0], MoreTo(items[1..], k))
  }

  function FieldTo(f: Field, k: string): string
    decreases f
  {
    QuoteTo(f.key, ":" + ValueTo(f.value, k))
  }

  function FieldsTo(fields: seq<Field>, k: string): string
    decreases fields, 1
  {
    if fields == [] then "}" + k else FieldTo(fields[0], MoreFieldsTo(fields[1..], k))
  }

  function MoreFieldsTo(fields: seq<Field>, k: string): string
    decreases fields, 0
  {
    if fields == [] then "}" + k else "," + FieldTo(fields[0], MoreFieldsTo(fields[1..], k))
  }

  function Objects(ts: seq<Transaction>): (vs: seq<Value>)
    ensures |vs| == |ts| && forall i | 0 <= i < |ts| :: vs[i] == Obj(ts[i].fields)
  {
    seq(|ts|, i requires 0 <= i < |ts| => Obj(ts[i].fields))
  }

  function Stringify(ts: seq<Transaction>): string {
    ValueTo(Arr(Objects(ts)), "")
  }

  // ----- writing in front of k is writing, then k -----

  lemma Assoc(a: string, b: string, c: string)
    ensures a + (b + c) == (a + b) + c
  {
  }

  lemma {:induction false} EscapeToAppend(s: string, k: string, l: string)
    ensures EscapeTo(s, k + l) == EscapeTo(s, k) + l
  {
    if s != "" {
      EscapeToAppend(s[1..], k, l);
    }
  }

  lemma QuoteToAppend(s: string, k: string, l: string)
    ensures QuoteTo(s, k + l) == QuoteTo(s, k) + l
  {
    EscapeToAppend(s, "\"" + k, l);
    Assoc("\"", k, l);
    Assoc("\"", EscapeTo(s, "\"" + k), l);
  }

  lemma {:induction false} ValueToAppend(v: Value, k: string, l: string)
    ensures ValueTo(v, k + l) == ValueTo(v, k) + l
    decreases v
  {
    match v
    case Null => Assoc("null", k, l);
    case Bool(bit) => Assoc(if bit then "true" else "false", k, l);
    case Num(number) => Assoc(number, k, l);
    case Str(text) => QuoteToAppend(text, k, l);
    case Arr(items) =>
      ItemsToAppend(items, k, l);
      Assoc("[", ItemsTo(items, k), l);
    case Obj(fields) =>
      FieldsToAppend(fields, k, l);
      Assoc("{", FieldsTo(fields, k), l);
  }

  lemma {:induction false} ItemsToAppend(items: seq<Value>, k: string, l: string)
    ensures ItemsTo(items, k + l) == ItemsTo(items, k) + l
    decreases items, 1
  {
    if items == [] {
      Assoc("]", k, l);
    } else {
      MoreToAppend(items[1..], k, l);
      ValueToAppend(items[0], MoreTo(items[1..], k), l);
    }
  }

  lemma {:induction false} MoreToAppend(items: seq<Value>, k: string, l: string)
    ensures MoreTo(items, k + l) == MoreTo(items, k) + l
    decreases items, 0
  {
    if items == [] {
      Assoc("]", k, l);
    } else {
      MoreToAppend(items[1..], k, l);
      ValueToAppend(items[0], MoreTo(items[1..], k), l);
      Assoc(",", ValueTo(items[0], MoreTo(items[1..], k)), l);
    }
  }

  lemma {:induction false} FieldToAppend(f: Field, k: string, l: string)
    ensures FieldTo(f, k + l) == FieldTo(f, k) + l
    decreases f
  {
    ValueToAppend(f.value, k, l);
    Assoc(":", ValueTo(f.value, k), l);
    QuoteToAppend(f.key, ":" + ValueTo(f.value, k), l);
  }

  lemma {:induction false} FieldsToAppend(fields: seq<Field>, k: string, l: string)
    ensures FieldsTo(fields, k + l) == FieldsTo(fields, k) + l
    decreases fields, 1
  {
    if fields == [] {
      Assoc("}", k, l);
    } else {
      MoreFieldsToAppend(fields[1..], k, l);
      FieldToAppend(fields[0], MoreFieldsTo(fields[1..], k), l);
    }
  }

  lemma {:induction false} MoreFieldsToAppend(fields: seq<Field>, k: string, l: string)
    ensures MoreFieldsTo(fields, k + l) == MoreFieldsTo(fields, k) + l
    decreases fields, 0
  {
    if fields == [] {
      Assoc("}", k, l);
    } else {
      MoreFieldsToAppend(fields[1..], k, l);
      FieldToAppend(fields[0], MoreFieldsTo(fields[1..], k), l);
      Assoc(",", FieldTo(fields[0], MoreFieldsTo(fields[1..], k)), l);
    }
  }

  lemma StringifyInFront(ts: seq<Transaction>, k: string)
    ensures ValueTo(Arr(Objects(ts)), k) == Stringify(ts) + k
  {
    ValueToAppend(Arr(Objects(ts)), "", k);
    assert "" + k == k;
  }

  // ----- reading back -----

  lemma Strip(p: string, x: string, y: string)
    requires p + x == p + y
    ensures x == y
  {
    assert (p + x)[|p|..] == x && (p + y)[|p|..] == y;
  }

  /** Text of one kind of character ends where the first character of another kind comes. */
  lemma StopAt(a: string, b: string, x: string, y: string, inside: char -> bool)
    requires a + x == b + y
    requires forall i | 0 <= i < |a| :: inside(a[i])
    requires forall i | 0 <= i < |b| :: inside(b[i])
    requires x != "" && !inside(x[0]) && y != "" && !inside(y[0])
    ensures a == b && x == y
  {
    assert (a + x)[|a|] == x[0] && (b + y)[|b|] == y[0];
    assert forall i | 0 <= i < |a| :: (a + x)[i] == a[i];
    assert forall i | 0 <= i < |b| :: (b + y)[i] == b[i];
    assert |a| == |b|;
    assert a == (a + x)[..|a|] && b == (b + y)[..|b|];
    Strip(a, x, y);
  }

  lemma NumberReadsBack(n: Number, m: Number, x: string, y: string)
    requires n + x == m + y && x != "" && y != "" && !IsNumeral(x[0]) && !IsNumeral(y[0])
    ensures n == m && x == y
  {
    StopAt(n, m, x, y, IsNumeral);
  }

  lemma EscapeHead(c: char)
    ensures EscapeChar(c)[0] != '"'
    ensures EscapeChar(c)[0] == '\\' <==> |EscapeChar(c)| > 1
  {
  }

  lemma EscapeReadsBack(c: char, d: char, x: string, y: string)
    requires EscapeChar(c) + x == EscapeChar(d) + y
    ensures c == d && x == y
  {
    var p, q := EscapeChar(c), EscapeChar(d);
    EscapeHead(c);
    EscapeHead(d);
    assert (p + x)[0] == p[0] && (q + y)[0] == q[0];
    if |p| > 1 {
      assert (p + x)[1] == p[1] && (q + y)[1] == q[1];
      if p[1] == 'u' {
        assert (p + x)[4] == p[4] && (q + y)[4] == q[4];
        assert (p + x)[5] == p[5] && (q + y)[5] == q[5];
        SameHex(c, d);
      }
    }
    assert c == d;
    Strip(p, x, y);
  }

  lemma SameHex(c: char, d: char)
    requires c < 32 as char && d < 32 as char
    requires HexDigit(c as int / 16) == HexDigit(d as int / 16) && HexDigit(c as int % 16) == HexDigit(d as int % 16)
    ensures c == d
  {
    HexInjective(c as int / 16, d as int / 16);
    HexInjective(c as int % 16, d as int % 16);
  }

  lemma HexInjective(a: nat, b: nat)
    requires a < 16 && b < 16 && HexDigit(a) == HexDigit(b)
    ensures a == b
  {
  }

  lemma EscapeToHead(s: string, k: string)
    ensures EscapeTo(s, "\"" + k) != "" && (EscapeTo(s, "\"" + k)[0] == '"' <==> s == "")
  {
    if s != "" {
      EscapeHead(s[0]);
      assert (EscapeChar(s[0]) + EscapeTo(s[1..], "\"" + k))[0] == EscapeChar(s[0])[0];
    }
  }

  lemma {:induction false} QuotedReadsBack(s: string, t: string, x: string, y: string)
    requires EscapeTo(s, "\"" + x) == EscapeTo(t, "\"" + y)
    ensures s == t && x == y
  {
    EscapeToHead(s, x);
    EscapeToHead(t, y);
    if s == "" {
      Strip("\"", x, y);
    } else {
      EscapeReadsBack(s[0], t[0], EscapeTo(s[1..], "\"" + x), EscapeTo(t[1..], "\"" + y));
      QuotedReadsBack(s[1..], t[1..], x, y);
      assert s == [s[0]] + s[1..] && t == [t[0]] + t[1..];
    }
  }

  lemma QuoteReadsBack(s: string, t: string, x: string, y: string)
    requires QuoteTo(s, x) == QuoteTo(t, y)
    ensures s == t && x == y
  {
    Strip("\"", EscapeTo(s, "\"" + x), EscapeTo(t, "\"" + y));
    QuotedReadsBack(s, t, x, y);
  }

  /** What follows a value inside a list or an object does not go on like a number. */
  predicate Ends(k: string) {
    k != "" && !IsNumeral(k[0])
  }

  /** The first character tells which kind of value it is. */
  function HeadOf(v: Value): char {
    match v
    case Null => 'n'
    case Bool(bit) => if bit then 't' else 'f'
    case Num(number) => number[0]
    case Str(_) => '"'
    case Arr(_) => '['
    case Obj(_) => '{'
  }

  lemma ValueHead(v: Value, k: string)
    ensures ValueTo(v, k) != "" && ValueTo(v, k)[0] == HeadOf(v)
  {
  }

  lemma NumeralsAreOther()
    ensures !IsNumeral('n') && !IsNumeral('t') && !IsNumeral('f') && !IsNumeral('"')
    ensures !IsNumeral('[') && !IsNumeral('{')
  {
  }

  lemma SameKind(v: Value, w: Value)
    requires HeadOf(v) == HeadOf(w)
    ensures v.Null? == w.Null? && v.Bool? == w.Bool? && v.Num? == w.Num?
    ensures v.Str? == w.Str? && v.Arr? == w.Arr? && v.Obj? == w.Obj?
    ensures v.Bool? ==> v == w
  {
    NumeralsAreOther();
    assert v.Num? ==> IsNumeral(v.number[0]);
    assert w.Num? ==> IsNumeral(w.number[0]);
  }

  lemma MoreEnds(items: seq<Value>, k: string)
    ensures Ends(MoreTo(items, k)) && MoreTo(items, k)[0] == if items == [] then ']' else ','
  {
  }

  lemma MoreFieldsEnd(fields: seq<Field>, k: string)
    ensures Ends(MoreFieldsTo(fields, k)) && MoreFieldsTo(fields, k)[0] == if fields == [] then '}' else ','
  {
  }

  /** The text of a value determines the value, when what follows cannot be taken for more of a number. */
  lemma {:induction false} ValueReadsBack(v: Value, w: Value, x: string, y: string)
    requires ValueTo(v, x) == ValueTo(w, y) && (v.Num? ==> Ends(x)) && (w.Num? ==> Ends(y))
    ensures v == w && x == y
    decreases v
  {
    ValueHead(v, x);
    ValueHead(w, y);
    SameKind(v, w);
    match v
    case Null => Strip("null", x, y);
    case Bool(bit) => Strip(if bit then "true" else "false", x, y);
    case Num(number) => NumberReadsBack(number, w.number, x, y);
    case Str(text) => QuoteReadsBack(text, w.text, x, y);
    case Arr(items) =>
      Strip("[", ItemsTo(items, x), ItemsTo(w.items, y));
      ItemsReadBack(items, w.items, x, y);
    case Obj(fields) =>
      Strip("{", FieldsTo(fields, x), FieldsTo(w.fields, y));
      FieldsReadBack(fields, w.fields, x, y);
  }

  lemma ItemsHead(items: seq<Value>, k: string)
    ensures ItemsTo(items, k) != "" && (ItemsTo(items, k)[0] == ']' <==> items == [])
  {
    if items != [] {
      ValueHead(items[0], MoreTo(items[1..], k));
    }
  }

  lemma {:induction false} ItemsReadBack(items: seq<Value>, others: seq<Value>, x: string, y: string)
    requires ItemsTo(items, x) == ItemsTo(others, y)
    ensures items == others && x == y
    decreases items, 2
  {
    ItemsHead(items, x);
    ItemsHead(others, y);
    if items == [] {
      Strip("]", x, y);
    } else {
      SomeReadBack(items, others, x, y);
    }
  }

  lemma {:induction false} MoreReadsBack(items: seq<Value>, others: seq<Value>, x: string, y: string)
    requires MoreTo(items, x) == MoreTo(others, y)
    ensures items == others && x == y
    decreases items, 2
  {
    MoreEnds(items, x);
    MoreEnds(others, y);
    if items == [] {
      Strip("]", x, y);
    } else {
      Strip(",", ValueTo(items[0], MoreTo(items[1..], x)), ValueTo(others[0], MoreTo(others[1..], y)));
      SomeReadBack(items, others, x, y);
    }
  }

  lemma {:induction false} SomeReadBack(items: seq<Value>, others: seq<Value>, x: string, y: string)
    requires items != [] && others != []
    requires ValueTo(items[0], MoreTo(items[1..], x)) == ValueTo(others[0], MoreTo(others[1..], y))
    ensures items == others && x == y
    decreases items, 1
  {
    MoreEnds(items[1..], x);
    MoreEnds(others[1..], y);
    ValueReadsBack(items[0], others[0], MoreTo(items[1..], x), MoreTo(others[1..], y));
    MoreReadsBack(items[1..], others[1..], x, y);
    assert items == [items[0]] + items[1..] && others == [others[0]] + others[1..];
  }

  lemma {:induction false} FieldReadsBack(f: Field, g: Field, x: string, y: string)
    requires FieldTo(f, x) == FieldTo(g, y) && Ends(x) && Ends(y)
    ensures f == g && x == y
    decreases f
  {
    QuoteReadsBack(f.key, g.key, ":" + ValueTo(f.value, x), ":" + ValueTo(g.value, y));
    Strip(":", ValueTo(f.value, x), ValueTo(g.value, y));
    ValueReadsBack(f.value, g.value, x, y);
  }

  lemma FieldsHead(fields: seq<Field>, k: string)
    ensures FieldsTo(fields, k) != "" && FieldsTo(fields, k)[0] == if fields == [] then '}' else '"'
  {
  }

  lemma {:induction false} FieldsReadBack(fields: seq<Field>, others: seq<Field>, x: string, y: string)
    requires FieldsTo(fields, x) == FieldsTo(others, y)
    ensures fields == others && x == y
    decreases fields, 2
  {
    FieldsHead(fields, x);
    FieldsHead(others, y);
    if fields == [] {
      Strip("}", x, y);
    } else {
      SomeFieldsReadBack(fields, others, x, y);
    }
  }

  lemma {:induction false} MoreFieldsReadBack(fields: seq<Field>, others: seq<Field>, x: string, y: string)
    requires MoreFieldsTo(fields, x) == MoreFieldsTo(others, y)
    ensures fields == others && x == y
    decreases fields, 2
  {
    MoreFieldsEnd(fields, x);
    MoreFieldsEnd(others, y);
    if fields == [] {
      Strip("}", x, y);
    } else {
      Strip(",", FieldTo(fields[0], MoreFieldsTo(fields[1..], x)), FieldTo(others[0], MoreFieldsTo(others[1..], y)));
      SomeFieldsReadBack(fields, others, x, y);
    }
  }

  lemma {:induction false} SomeFieldsReadBack(fields: seq<Field>, others: seq<Field>, x: string, y: string)
    requires fields != [] && others != []
    requires FieldTo(fields[0], MoreFieldsTo(fields[1..], x)) == FieldTo(others[0], MoreFieldsTo(others[1..], y))
    ensures fields == others && x == y
    decreases fields, 1
  {
    MoreFieldsEnd(fields[1..], x);
    MoreFieldsEnd(others[1..], y);
    FieldReadsBack(fields[0], others[0], MoreFieldsTo(fields[1..], x), MoreFieldsTo(others[1..], y));
    MoreFieldsReadBack(fields[1..], others[1..], x, y);
    assert fields == [fields[0]] + fields[1..] && others == [others[0]] + others[1..];
  }

  /** The text of a list of transactions determines the list, whatever text follows it. */
  lemma StringifyReadsBack(ts: seq<Transaction>, us: seq<Transaction>, x: string, y: string)
    requires Stringify(ts) + x == Stringify(us) + y
    ensures ts == us && x == y
  {
    StringifyInFront(ts, x);
    StringifyInFront(us, y);
    ValueReadsBack(Arr(Objects(ts)), Arr(Objects(us)), x, y);
    forall i | 0 <= i < |ts|
      ensures ts[i] == us[i]
    {
      assert Objects(ts)[i] == Objects(us)[i];
    }
  }
}
