/** The text of a JSON value by the grammar of RFC 8259, sections 4, 5 and 7, and what `Json` writes. */
module JsonText {
  import opened Wrappers
  import opened Json

  /** Texts with a comma between each two. */
  function Joined(parts: seq<string>): string {
    if parts == [] then ""
    else if |parts| == 1 then parts[0]
    else parts[0] + ("," + Joined(parts[1..]))
  }

  function Escaped(s: string): string {
    if s == "" then "" else EscapeChar(s[0]) + Escaped(s[1..])
  }

  function Quoted(s: string): string {
    "\"" + Escaped(s) + "\""
  }

  /** A list is its joined entries in brackets; an object its joined members, key, colon and value, in braces. */
  function Text(v: Value): string
    decreases v
  {
    match v
    case Null => "null"
    case Bool(bit) => if bit then "true" else "false"
    case Num(number) => number
    case Str(text) => Quoted(text)
    case Arr(items) => "[" + Joined(Texts(items)) + "]"
    case Obj(fields) => "{" + Joined(Members(fields)) + "}"
  }

  function Texts(items: seq<Value>): seq<string>
    decreases items
  {
    if items == [] then [] else [Text(items[0])] + Texts(items[1..])
  }

  function Members(fields: seq<Field>): seq<string>
    decreases fields
  {
    if fields == [] then []
    else [Quoted(fields[0].key) + ":" + Text(fields[0].value)] + Members(fields[1..])
  }

  lemma {:induction false} EscapeToIsEscaped(s: string, k: string)
    ensures EscapeTo(s, k) == Escaped(s) + k
  {
    if s != "" {
      EscapeToIsEscaped(s[1..], k);
      Assoc(EscapeChar(s[0]), Escaped(s[1..]), k);
    }
  }

  lemma QuoteToIsQuoted(s: string, k: string)
    ensures QuoteTo(s, k) == Quoted(s) + k
  {
    EscapeToIsEscaped(s, "\"" + k);
    Assoc(Escaped(s), "\"", k);
    Assoc("\"", Escaped(s), "\"");
    Assoc("\"", Escaped(s) + "\"", k);
  }

  lemma Joins(first: string, rest: seq<string>)
    ensures Joined([first] + rest) == first + if rest == [] then "" else "," + Joined(rest)
  {
    assert ([first] + rest)[1..] == rest;
    assert first + "" == first;
  }

  /** Writing in front of `k` is writing the text by that grammar, then `k`. */
  lemma {:induction false} ValueToIsText(v: Value, k: string)
    ensures ValueTo(v, k) == Text(v) + k
    decreases v
  {
    match v
    case Null =>
    case Bool(_) =>
    case Num(_) =>
    case Str(text) => QuoteToIsQuoted(text, k);
    case Arr(items) =>
      ItemsToIsText(items, k);
      Assoc("[", Joined(Texts(items)), "]");
      Assoc("[", Joined(Texts(items)) + "]", k);
    case Obj(fields) =>
      FieldsToIsText(fields, k);
      Assoc("{", Joined(Members(fields)), "}");
      Assoc("{", Joined(Members(fields)) + "}", k);
  }

  lemma {:induction false} ItemsToIsText(items: seq<Value>, k: string)
    ensures ItemsTo(items, k) == Joined(Texts(items)) + "]" + k
    decreases items, 1
  {
    if items != [] {
      var first, rest := Text(items[0]), Texts(items[1..]);
      MoreToIsText(items[1..], k);
      ValueToIsText(items[0], MoreTo(items[1..], k));
      Joins(first, rest);
      Around(first, if rest == [] then "" else "," + Joined(rest), "]", k);
    }
  }

  lemma {:induction false} MoreToIsText(items: seq<Value>, k: string)
    ensures MoreTo(items, k) == (if items == [] then "" else "," + Joined(Texts(items))) + "]" + k
    decreases items, 2
  {
    if items != [] {
      ItemsToIsText(items, k);
      Around(",", Joined(Texts(items)), "]", k);
    }
  }

  lemma Around(a: string, b: string, c: string, k: string)
    ensures a + (b + c + k) == a + b + c + k
  {
  }

  lemma {:induction false} FieldsToIsText(fields: seq<Field>, k: string)
    ensures FieldsTo(fields, k) == Joined(Members(fields)) + "}" + k
    decreases fields, 1
  {
    if fields != [] {
      var first, rest := Quoted(fields[0].key) + ":" + Text(fields[0].value), Members(fields[1..]);
      MoreFieldsToIsText(fields[1..], k);
      FieldToIsText(fields[0], MoreFieldsTo(fields[1..], k));
      Joins(first, rest);
      Around(first, if rest == [] then "" else "," + Joined(rest), "}", k);
    }
  }

  lemma {:induction false} MoreFieldsToIsText(fields: seq<Field>, k: string)
    ensures MoreFieldsTo(fields, k) == (if fields == [] then "" else "," + Joined(Members(fields))) + "}" + k
    decreases fields, 2
  {
    if fields != [] {
      FieldsToIsText(fields, k);
      Around(",", Joined(Members(fields)), "}", k);
    }
  }

  lemma {:induction false} FieldToIsText(f: Field, k: string)
    ensures FieldTo(f, k) == Quoted(f.key) + ":" + Text(f.value) + k
    decreases f
  {
    ValueToIsText(f.value, k);
    QuoteToIsQuoted(f.key, ":" + ValueTo(f.value, k));
    Around(Quoted(f.key), ":", Text(f.value), k);
  }

  /** `Stringify` writes the text of sections 4, 5 and 7 of RFC 8259. */
  lemma StringifyIsText(ts: seq<Transaction>)
    ensures Stringify(ts) == Text(Arr(Objects(ts)))
  {
    ValueToIsText(Arr(Objects(ts)), "");
  }

  function HexValue(c: char): nat {
    if '0' <= c <= '9' then c as int - '0' as int
    else if 'a' <= c <= 'f' then c as int - 'a' as int + 10
    else 0
  }

  /** What a reader makes of one character of a JSON string, by section 7 of RFC 8259. */
  function ReadChar(e: string): Option<char> {
    if |e| == 1 && e[0] != '"' && e[0] != '\\' && e[0] >= 32 as char then Some(e[0])
    else if |e| == 2 && e[0] == '\\' then
      match e[1]
      case '"' => Some('"')
      case '\\' => Some('\\')
      case '/' => Some('/')
      case 'b' => Some(8 as char)
      case 'f' => Some(12 as char)
      case 'n' => Some(10 as char)
      case 'r' => Some(13 as char)
      case 't' => Some(9 as char)
      case _ => None
    else if |e| == 6 && e[..4] == "\\u00" && HexValue(e[4]) < 8 then
      Some((16 * HexValue(e[4]) + HexValue(e[5])) as char)
    else None
  }

  /** Every character is escaped so that a reader gets it back. */
  lemma EscapedIsRead(c: char)
    ensures ReadChar(EscapeChar(c)) == Some(c)
  {
    if c < 32 as char {
      HexDigitValue(c as int / 16);
      HexDigitValue(c as int % 16);
    }
  }

  lemma HexDigitValue(d: nat)
    requires d < 16
    ensures HexValue(HexDigit(d)) == d
  {
  }
}
