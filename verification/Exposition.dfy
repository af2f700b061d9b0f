/** Help texts, quoted label values and label blocks of the Prometheus text format. */
module Exposition {
  import opened Sequences
  import opened Wrappers
  import opened Text
  import opened Sanitize

  // ---------- Help text ----------

  /** The four replacements, one after the other. */
  function EscapeHelp(text: string): string {
    Replace(Replace(Replace(Replace(text, "\\", "\\\\"), "\n", "\\n"), "\t", "\\t"), "\r", "\\r")
  }

  function HelpChar(c: char): string {
    match c
    case '\\' => "\\\\"
    case '\n' => "\\n"
    case '\t' => "\\t"
    case '\r' => "\\r"
    case _ => [c]
  }

  function UnescapeHelp(s: string): string {
    if |s| >= 2 && s[0] == '\\' then
      (match s[1]
       case 'n' => "\n"
       case 't' => "\t"
       case 'r' => "\r"
       case c => [c]) + UnescapeHelp(s[2..])
    else if s == "" then ""
    else [s[0]] + UnescapeHelp(s[1..])
  }

  lemma MapOne(c: char, f: char -> string)
    ensures MapChars([c], f) == f(c)
  {
    assert [c][1..] == "";
    assert f(c) + "" == f(c);
  }

  lemma MapTwo(c: char, d: char, f: char -> string)
    ensures MapChars([c, d], f) == f(c) + f(d)
  {
    MapCharsAppend([c], [d], f);
    MapOne(c, f);
    MapOne(d, f);
    assert [c] + [d] == [c, d];
  }

  /** Later passes leave alone what earlier ones wrote, because backslashes go first. */
  lemma PassesOnOneChar(c: char)
    ensures EscapeHelp([c]) == HelpChar(c)
  {
    var s1, s2, s3, s4 := Swap('\\', "\\\\"), Swap('\n', "\\n"), Swap('\t', "\\t"), Swap('\r', "\\r");
    var t1 := Replace([c], "\\", "\\\\");
    var t2 := Replace(t1, "\n", "\\n");
    var t3 := Replace(t2, "\t", "\\t");
    ReplaceCharIsMap([c], '\\', "\\\\");
    ReplaceCharIsMap(t1, '\n', "\\n");
    ReplaceCharIsMap(t2, '\t', "\\t");
    ReplaceCharIsMap(t3, '\r', "\\r");
    MapOne(c, s1);
    MapOne(c, s2);
    MapOne(c, s3);
    MapOne(c, s4);
    MapTwo('\\', '\\', s2);
    MapTwo('\\', '\\', s3);
    MapTwo('\\', '\\', s4);
    MapTwo('\\', 'n', s3);
    MapTwo('\\', 'n', s4);
    MapTwo('\\', 't', s4);
  }

  lemma EscapeHelpAppend(a: string, b: string)
    ensures EscapeHelp(a + b) == EscapeHelp(a) + EscapeHelp(b)
  {
    ReplaceAppend(a, b, '\\', "\\\\");
    var a1, b1 := Replace(a, "\\", "\\\\"), Replace(b, "\\", "\\\\");
    ReplaceAppend(a1, b1, '\n', "\\n");
    var a2, b2 := Replace(a1, "\n", "\\n"), Replace(b1, "\n", "\\n");
    ReplaceAppend(a2, b2, '\t', "\\t");
    ReplaceAppend(Replace(a2, "\t", "\\t"), Replace(b2, "\t", "\\t"), '\r', "\\r");
  }

  lemma ReplaceAppend(a: string, b: string, c: char, to: string)
    ensures Replace(a + b, [c], to) == Replace(a, [c], to) + Replace(b, [c], to)
  {
    ReplaceCharIsMap(a, c, to);
    ReplaceCharIsMap(b, c, to);
    ReplaceCharIsMap(a + b, c, to);
    MapCharsAppend(a, b, Swap(c, to));
  }

  /** The four passes are one pass that replaces each character by itself. */
  lemma {:induction false} FourPassesAreOne(text: string)
    ensures EscapeHelp(text) == MapChars(text, HelpChar)
  {
    if text != "" {
      assert text == [text[0]] + text[1..];
      EscapeHelpAppend([text[0]], text[1..]);
      PassesOnOneChar(text[0]);
      FourPassesAreOne(text[1..]);
    }
  }

  /** What becomes of each character of a help text. */
  lemma EscapedCharacter(c: char)
    ensures EscapeHelp([c]) ==
            if c == '\\' then "\\\\"
            else if c == '\n' then "\\n"
            else if c == '\t' then "\\t"
            else if c == '\r' then "\\r"
            else [c]
  {
    PassesOnOneChar(c);
  }

  lemma UnescapeOne(c: char, t: string)
    ensures UnescapeHelp(HelpChar(c) + t) == [c] + UnescapeHelp(t)
  {
    var escaped := HelpChar(c) + t;
    DropLeft(HelpChar(c), t);
    if |HelpChar(c)| == 2 {
      assert escaped[0] == '\\' && escaped[1] == HelpChar(c)[1] && escaped[2..] == t;
    } else {
      assert escaped[0] == c != '\\' && escaped[1..] == t;
    }
  }

  /** Escaping help text loses nothing and leaves no raw newline, tab or carriage return. */
  lemma {:induction false} HelpRoundTrip(text: string)
    ensures UnescapeHelp(EscapeHelp(text)) == text
    ensures forall c | c in EscapeHelp(text) :: c != '\n' && c != '\t' && c != '\r'
  {
    FourPassesAreOne(text);
    if text != "" {
      HelpRoundTrip(text[1..]);
      FourPassesAreOne(text[1..]);
      UnescapeOne(text[0], EscapeHelp(text[1..]));
      assert text == [text[0]] + text[1..];
    }
  }

  // ---------- Quoted values ----------

  function HexDigit(d: nat): char
    requires d < 16
  {
    "0123456789abcdef"[d]
  }

  function HexValue(c: char): Option<nat> {
    if '0' <= c <= '9' then Some(c as int - '0' as int)
    else if 'a' <= c <= 'f' then Some(c as int - 'a' as int + 10)
    else None
  }

  function Hex(n: nat): string {
    if n < 16 then [HexDigit(n)] else Hex(n / 16) + [HexDigit(n % 16)]
  }

  /**
   One character under Rust's `{:?}` for strings. Which characters count as printable depends
   on Unicode tables; `printable` may be any choice at all.
   */
  function QuoteChar(printable: char -> bool, c: char): string {
    match c
    case '"' => "\\\""
    case '\\' => "\\\\"
    case '\n' => "\\n"
    case '\t' => "\\t"
    case '\r' => "\\r"
    case '\0' => "\\0"
    case _ => if printable(c) then [c] else "\\u{" + Hex(c as int) + "}"
  }

  function QuoteBody(printable: char -> bool, s: string): string {
    if s == "" then "" else QuoteChar(printable, s[0]) + QuoteBody(printable, s[1..])
  }

  function Quote(printable: char -> bool, s: string): string {
    "\"" + QuoteBody(printable, s) + "\""
  }

  /** Hexadecimal digits up to a closing brace: their value, and the text after the brace. */
  function ReadHex(t: string, value: nat): (r: Option<(nat, string)>)
    ensures r.Some? ==> |r.value.1| < |t|
  {
    if t == "" then None
    else if t[0] == '}' then Some((value, t[1..]))
    else
      var d := HexValue(t[0]);
      if d.None? then None else ReadHex(t[1..], value * 16 + d.value)
  }

  predicate IsScalar(n: nat) {
    n < 0xD800 || 0xE000 <= n < 0x11_0000
  }

  /** One possibly escaped character, and the text after it. */
  function ReadChar(t: string): (r: Option<(char, string)>)
    ensures r.Some? ==> |r.value.1| < |t|
  {
    if t == "" || t[0] == '"' then None
    else if t[0] != '\\' then Some((t[0], t[1..]))
    else if |t| < 2 then None
    else
      match t[1]
      case '"' => Some(('"', t[2..]))
      case '\\' => Some(('\\', t[2..]))
      case 'n' => Some(('\n', t[2..]))
      case 't' => Some(('\t', t[2..]))
      case 'r' => Some(('\r', t[2..]))
      case '0' => Some(('\0', t[2..]))
      case 'u' =>
        if |t| < 3 || t[2] != '{' then None
        else
          var code := ReadHex(t[3..], 0);
          if code.None? || !IsScalar(code.value.0) then None
          else Some((code.value.0 as char, code.value.1))
      case _ => None
  }

  /** The rest of a quoted text whose opening quote has been read, and the text after it. */
  function ReadQuoted(t: string): (r: Option<(string, string)>)
    ensures r.Some? ==> |r.value.1| < |t|
    decreases |t|
  {
    if t != "" && t[0] == '"' then Some(("", t[1..]))
    else
      var head := ReadChar(t);
      if head.None? then None
      else
        var tail := ReadQuoted(head.value.1);
        if tail.None? then None else Some(([head.value.0] + tail.value.0, tail.value.1))
  }

  lemma HexDigitValue(d: nat)
    requires d < 16
    ensures HexValue(HexDigit(d)) == Some(d) && HexDigit(d) != '}'
  {}

  lemma ReadOneDigit(d: nat, t: string, value: nat)
    requires d < 16
    ensures ReadHex([HexDigit(d)] + t, value) == ReadHex(t, value * 16 + d)
  {
    HexDigitValue(d);
    HeadTail([HexDigit(d)], t);
  }

  /** One more digit at the end. */
  lemma HexSnoc(q: nat, r: nat, t: string)
    requires r < 16 && ReadHex(Hex(q) + ([HexDigit(r)] + t), 0) == ReadHex([HexDigit(r)] + t, q)
    ensures ReadHex(Hex(q) + [HexDigit(r)] + t, 0) == ReadHex(t, q * 16 + r)
  {
    Assoc(Hex(q), [HexDigit(r)], t);
    ReadOneDigit(r, t, q);
  }

  lemma {:induction false} HexRoundTrip(n: nat, t: string)
    ensures ReadHex(Hex(n) + t, 0) == ReadHex(t, n)
  {
    if n < 16 {
      ReadOneDigit(n, t, 0);
    } else {
      HexRoundTrip(n / 16, [HexDigit(n % 16)] + t);
      HexSnoc(n / 16, n % 16, t);
    }
  }

  lemma CharRoundTrip(printable: char -> bool, c: char, t: string)
    ensures ReadChar(QuoteChar(printable, c) + t) == Some((c, t))
    ensures (QuoteChar(printable, c) + t)[0] != '"'
  {
    var q := QuoteChar(printable, c);
    if q == "\\u{" + Hex(c as int) + "}" {
      assert q + t == "\\u{" + (Hex(c as int) + ("}" + t));
      assert (q + t)[3..] == Hex(c as int) + ("}" + t);
      HexRoundTrip(c as int, "}" + t);
      assert ("}" + t)[1..] == t;
    } else {
      assert (q + t)[|q|..] == t;
    }
  }

  lemma ReadOneMore(c: char, text: string, rest: string, tail: string, t: string)
    requires text != "" && text[0] != '"' && ReadChar(text) == Some((c, rest))
    requires ReadQuoted(rest) == Some((tail, t))
    ensures ReadQuoted(text) == Some(([c] + tail, t))
  {}

  /** A quoted value reads back, whatever follows it and whichever characters are printable. */
  lemma {:induction false} QuoteRoundTrip(printable: char -> bool, s: string, t: string)
    ensures ReadQuoted(QuoteBody(printable, s) + "\"" + t) == Some((s, t))
  {
    if s == "" {
      HeadTail("\"", t);
    } else {
      var head, body := QuoteChar(printable, s[0]), QuoteBody(printable, s[1..]);
      var rest := body + "\"" + t;
      Assoc(head, body, "\"");
      Assoc(head, body + "\"", t);
      CharRoundTrip(printable, s[0], rest);
      QuoteRoundTrip(printable, s[1..], t);
      ReadOneMore(s[0], head + rest, rest, s[1..], t);
      ConsTail(s);
    }
  }

  lemma {:induction false} QuoteBodyAppend(printable: char -> bool, a: string, b: string)
    ensures QuoteBody(printable, a + b) == QuoteBody(printable, a) + QuoteBody(printable, b)
  {
    if a == "" {
      assert a + b == b;
    } else {
      HeadTail(a, b);
      QuoteBodyAppend(printable, a[1..], b);
      Assoc(QuoteChar(printable, a[0]), QuoteBody(printable, a[1..]), QuoteBody(printable, b));
    }
  }

  /**
   What becomes of each character of a value: quotes, backslashes and line ends are escaped,
   printable characters stay, all others are written as hexadecimal code points.
   */
  lemma QuotedCharacter(printable: char -> bool, c: char)
    ensures QuoteBody(printable, [c]) ==
            if c == '"' || c == '\\' then ['\\', c]
            else if c == '\n' then "\\n"
            else if c == '\r' then "\\r"
            else if c == '\t' then "\\t"
            else if c == '\0' then "\\0"
            else if printable(c) then [c]
            else "\\u{" + Hex(c as int) + "}"
  {
    var body := QuoteChar(printable, c);
    assert [c][1..] == "";
    assert body + "" == body;
  }

  lemma HexDigitIff(c: char, d: nat)
    requires d < 16
    ensures HexValue(c) == Some(d) <==> c == "0123456789abcdef"[d]
  {}

  /** Hexadecimal: the digits have the number as their value, and no superfluous zeros in front. */
  lemma {:induction false} HexMeans(n: nat)
    ensures ReadHex(Hex(n) + "}", 0) == Some((n, ""))
    ensures forall i | 0 <= i < |Hex(n)| :: Hex(n)[i] in "0123456789abcdef"
    ensures Hex(n) != "" && (n > 0 ==> Hex(n)[0] != '0')
    decreases n
  {
    HexRoundTrip(n, "}");
    if n >= 16 {
      HexMeans(n / 16);
    }
  }

  // ---------- Label blocks ----------

  datatype Label = Label(key: string, value: string)

  /** Everything the serializer writes as a key is a name, and has no equals sign in it. */
  ghost predicate NamesOnly(labels: seq<Label>) {
    forall i | 0 <= i < |labels| :: '=' !in labels[i].key
  }

  function LabelText(printable: char -> bool, l: Label): string {
    l.key + "=" + Quote(printable, l.value)
  }

  function Join(printable: char -> bool, labels: seq<Label>): string {
    if labels == [] then ""
    else if |labels| == 1 then LabelText(printable, labels[0])
    else LabelText(printable, labels[0]) + "," + Join(printable, labels[1..])
  }

  /** A label block: braces only when there is something to put in them. */
  function Block(printable: char -> bool, labels: seq<Label>): string {
    if labels == [] then "" else "{" + Join(printable, labels) + "}"
  }

  lemma {:induction false} JoinAppend(printable: char -> bool, a: seq<Label>, b: seq<Label>)
    requires a != [] && b != []
    ensures Join(printable, a + b) == Join(printable, a) + "," + Join(printable, b)
  {
    assert (a + b)[1..] == a[1..] + b;
    if |a| == 1 {
      assert a[1..] + b == b;
    } else {
      JoinAppend(printable, a[1..], b);
    }
  }

  /** The syntax of a block: keys, equals signs and quoted values, commas between them, braces around. */
  lemma BlockSyntax(printable: char -> bool, l: Label, rest: seq<Label>)
    ensures Block(printable, []) == ""
    ensures Block(printable, [l]) == "{" + (l.key + "=" + ("\"" + QuoteBody(printable, l.value) + "\"")) + "}"
    ensures rest != [] ==>
              "{" + (l.key + "=" + ("\"" + QuoteBody(printable, l.value) + "\"")) + "," + Block(printable, rest)[1..]
              == Block(printable, [l] + rest)
  {
    if rest != [] {
      var text, joined := LabelText(printable, l), Join(printable, rest);
      DropLeft([l], rest);
      HeadTail("{", joined + "}");
      Assoc("{", joined, "}");
      Assoc(text + ",", joined, "}");
      Assoc("{", text, ",");
      Assoc("{", text + ",", joined + "}");
      Assoc("{", text + "," + joined, "}");
    }
  }

  /** An unfinished block. */
  function Opened(printable: char -> bool, labels: seq<Label>): string {
    if labels == [] then "" else "{" + Join(printable, labels)
  }

  lemma OpenedAppend(printable: char -> bool, before: string, labels: seq<Label>, l: Label)
    ensures before + Opened(printable, labels + [l]) ==
            before + Opened(printable, labels) + (if labels == [] then "{" else ",") + LabelText(printable, l)
  {
    if labels != [] {
      JoinAppend(printable, labels, [l]);
      var joined, text := Join(printable, labels), LabelText(printable, l);
      Assoc("{", joined, ",");
      Assoc("{", joined + ",", text);
      Assoc(before, "{" + joined, ",");
      Assoc(before, "{" + joined + ",", text);
    } else {
      assert labels + [l] == [l];
      Assoc(before, "{", LabelText(printable, l));
    }
  }

  lemma JoinTexts(before: string, a: string, b: string)
    ensures before + ("{" + a) + "," + b + "}" == before + ("{" + (a + "," + b) + "}")
    ensures before + ("{" + a) + "}" == before + ("{" + a + "}")
    ensures before + "" + "{" + b + "}" == before + ("{" + b + "}")
  {}

  /** Writes attributes as labels to the output, minding braces and commas. */
  class LabelWriter {
    const printable: char -> bool
    const staticLabels: Option<string>
    var output: string
    var hasWritten: bool
    ghost const before: string
    ghost var emitted: seq<Label>

    ghost predicate Valid()
      reads this
    {
      && hasWritten == (emitted != [])
      && output == before + Opened(printable, emitted)
    }

    constructor (printable: char -> bool, staticLabels: Option<string>, output: string)
      ensures Valid() && emitted == [] && before == output
      ensures this.printable == printable && this.staticLabels == staticLabels
    {
      this.printable, this.staticLabels, this.output := printable, staticLabels, output;
      hasWritten, before, emitted := false, output, [];
    }

    method Emit(key: string, value: string)
      requires Valid()
      modifies this
      ensures Valid() && emitted == old(emitted) + [Label(key, value)]
    {
      OpenedAppend(printable, before, emitted, Label(key, value));
      if !hasWritten {
        hasWritten := true;
        output := output + "{";
      } else {
        output := output + ",";
      }
      output := output + (key + "=" + Quote(printable, value));
      emitted := emitted + [Label(key, value)];
    }

    /** The finished output is the text before, and one block of all labels. */
    method Finish(ghost statics: seq<Label>) returns (text: string)
      requires Valid()
      requires staticLabels == if statics == [] then None else Some(Join(printable, statics))
      modifies this
      ensures text == before + Block(printable, emitted + statics)
      ensures emitted == old(emitted)
    {
      if staticLabels.Some? {
        if hasWritten {
          JoinAppend(printable, emitted, statics);
          JoinTexts(before, Join(printable, emitted), staticLabels.value);
          output := output + "," + staticLabels.value + "}";
        } else {
          assert emitted + statics == statics;
          JoinTexts(before, "", staticLabels.value);
          output := output + "{" + staticLabels.value + "}";
        }
      } else {
        assert emitted + statics == emitted;
        if hasWritten {
          JoinTexts(before, Join(printable, emitted), "");
          output := output + "}";
        }
      }
      text := output;
    }
  }

  /** The text up to the first equals sign, and the text after it. */
  function ReadKey(t: string): (r: Option<(string, string)>)
    ensures r.Some? ==> |r.value.1| < |t|
  {
    if t == "" then None
    else if t[0] == '=' then Some(("", t[1..]))
    else
      var rest := ReadKey(t[1..]);
      if rest.None? then None else Some(([t[0]] + rest.value.0, rest.value.1))
  }

  function ReadLabel(t: string): (r: Option<(Label, string)>)
    ensures r.Some? ==> |r.value.1| < |t|
  {
    var key := ReadKey(t);
    if key.None? || key.value.1 == "" || key.value.1[0] != '"' then None
    else
      var value := ReadQuoted(key.value.1[1..]);
      if value.None? then None else Some((Label(key.value.0, value.value.0), value.value.1))
  }

  /** Labels separated by commas, up to the closing brace, and the text after it. */
  function ReadLabels(t: string): Option<(seq<Label>, string)>
    decreases |t|
  {
    var first := ReadLabel(t);
    if first.None? || first.value.1 == "" then None
    else if first.value.1[0] == '}' then Some(([first.value.0], first.value.1[1..]))
    else if first.value.1[0] != ',' then None
    else
      var rest := ReadLabels(first.value.1[1..]);
      if rest.None? then None else Some(([first.value.0] + rest.value.0, rest.value.1))
  }

  function ReadBlock(t: string): Option<(seq<Label>, string)> {
    if t != "" && t[0] == '{' then ReadLabels(t[1..]) else Some(([], t))
  }

  lemma {:induction false} KeyRoundTrip(key: string, t: string)
    requires '=' !in key
    ensures ReadKey(key + "=" + t) == Some((key, t))
  {
    var text := key + "=" + t;
    if key == "" {
      assert text[1..] == t;
    } else {
      assert text[1..] == key[1..] + "=" + t;
      KeyRoundTrip(key[1..], t);
      assert key == [key[0]] + key[1..];
    }
  }

  lemma LabelRoundTrip(printable: char -> bool, l: Label, t: string)
    requires '=' !in l.key
    ensures ReadLabel(LabelText(printable, l) + t) == Some((l, t))
  {
    var body := QuoteBody(printable, l.value);
    var quoted := "\"" + (body + "\"" + t);
    assert LabelText(printable, l) + t == l.key + "=" + quoted by {
      Assoc("\"", body, "\"");
      Assoc("\"", body + "\"", t);
      Assoc(l.key + "=", "\"" + body + "\"", t);
    }
    KeyRoundTrip(l.key, quoted);
    HeadTail("\"", body + "\"" + t);
    QuoteRoundTrip(printable, l.value, t);
  }

  lemma ReadLastLabel(printable: char -> bool, l: Label, t: string)
    requires '=' !in l.key
    ensures ReadLabels(LabelText(printable, l) + ("}" + t)) == Some(([l], t))
  {
    LabelRoundTrip(printable, l, "}" + t);
    HeadTail("}", t);
  }

  lemma ReadFirstLabel(printable: char -> bool, l: Label, text: string, labels: seq<Label>, t: string)
    requires '=' !in l.key && ReadLabels(text) == Some((labels, t))
    ensures ReadLabels(LabelText(printable, l) + ("," + text)) == Some(([l] + labels, t))
  {
    LabelRoundTrip(printable, l, "," + text);
    HeadTail(",", text);
  }

  /** Regrouping of the text of several labels around the first one. */
  lemma SplitFirst(head: string, rest: string, t: string)
    ensures head + "," + rest + "}" + t == head + ("," + (rest + "}" + t))
  {
    Assoc(head + ",", rest, "}");
    Assoc(head + ",", rest + "}", t);
    Assoc(head, ",", rest + "}" + t);
  }

  lemma {:induction false} LabelsRoundTrip(printable: char -> bool, labels: seq<Label>, t: string)
    requires labels != [] && NamesOnly(labels)
    ensures ReadLabels(Join(printable, labels) + "}" + t) == Some((labels, t))
  {
    ConsTail(labels);
    if |labels| == 1 {
      Assoc(LabelText(printable, labels[0]), "}", t);
      ReadLastLabel(printable, labels[0], t);
      assert [labels[0]] + labels[1..] == [labels[0]];
    } else {
      var rest := Join(printable, labels[1..]);
      LabelsRoundTrip(printable, labels[1..], t);
      SplitFirst(LabelText(printable, labels[0]), rest, t);
      ReadFirstLabel(printable, labels[0], rest + "}" + t, labels[1..], t);
    }
  }

  /**
   Every label block reads back to exactly the labels written, values of any characters
   included; an absent block reads as no labels.
   */
  lemma BlockRoundTrip(printable: char -> bool, labels: seq<Label>, t: string)
    requires NamesOnly(labels) && t != "" && t[0] != '{'
    ensures ReadBlock(Block(printable, labels) + t) == Some((labels, t))
  {
    if labels == [] {
      assert "" + t == t;
    } else {
      var joined := Join(printable, labels);
      Assoc("{", joined, "}");
      Assoc("{", joined + "}", t);
      HeadTail("{", joined + "}" + t);
      LabelsRoundTrip(printable, labels, t);
    }
  }

  // ---------- Resource attributes and target_info ----------

  datatype Selector = SelectAll | SelectNone | AllowList(keys: set<string>) {
    predicate Matches(key: string) {
      match this
      case SelectAll => true
      case SelectNone => false
      case AllowList(keys) => key in keys
    }
  }

  /** An attribute with the text of its value. */
  datatype Attribute = Attribute(key: string, value: string)

  function LabelOf(a: Attribute): Label {
    Label(Sanitized(a.key), a.value)
  }

  /** Labels of the attributes that match the selector, or of those that do not. */
  function Selected(attrs: seq<Attribute>, selector: Selector, matching: bool): seq<Label> {
    if attrs == [] then []
    else
      var init, last := Selected(attrs[..|attrs| - 1], selector, matching), attrs[|attrs| - 1];
      if selector.Matches(last.key) == matching then init + [LabelOf(last)] else init
  }

  method GenerateStaticLabels(printable: char -> bool, selector: Selector, attrs: seq<Attribute>)
    returns (r: Option<string>)
    ensures var labels := Selected(attrs, selector, true);
            r == if labels == [] then None else Some(Join(printable, labels))
  {
    var hasAttrs, buf := false, "";
    if selector.SelectNone? {
      NoneSelected(attrs);
      return None;
    }
    for i := 0 to |attrs|
      invariant hasAttrs == (Selected(attrs[..i], selector, true) != [])
      invariant buf == Join(printable, Selected(attrs[..i], selector, true))
    {
      PrefixSnoc(attrs, i);
      if selector.Matches(attrs[i].key) {
        var key := SanitizeName(attrs[i].key);
        if !hasAttrs {
          hasAttrs := true;
          buf := buf + (key + "=" + Quote(printable, attrs[i].value));
        } else {
          JoinAppend(printable, Selected(attrs[..i], selector, true), [LabelOf(attrs[i])]);
          buf := buf + "," + (key + "=" + Quote(printable, attrs[i].value));
        }
      }
    }
    WholePrefix(attrs);
    return if hasAttrs then Some(buf) else None;
  }

  lemma {:induction false} NoneSelected(attrs: seq<Attribute>)
    ensures Selected(attrs, SelectNone, true) == []
  {
    if attrs != [] {
      NoneSelected(attrs[..|attrs| - 1]);
    }
  }

  const TARGET_INFO_HEADER: string :=
    "# TYPE target_info gauge\n# HELP target_info Target metadata\ntarget_info"

  method SerializeResource(printable: char -> bool, selector: Selector, disabled: bool, attrs: seq<Attribute>)
    returns (text: string)
    ensures text == if attrs == [] || disabled then ""
                    else "# TYPE target_info gauge\n# HELP target_info Target metadata\ntarget_info" + Block(printable, TargetLabels(attrs, selector)) + " 1\n"
  {
    if attrs == [] || disabled {
      return "";
    }
    var statics := GenerateStaticLabels(printable, selector, attrs);
    var writer := new LabelWriter(printable, statics, TARGET_INFO_HEADER);
    for i := 0 to |attrs|
      invariant writer.Valid() && writer.emitted == Selected(attrs[..i], selector, false)
    {
      PrefixSnoc(attrs, i);
      if !selector.Matches(attrs[i].key) {
        var key := SanitizeName(attrs[i].key);
        writer.Emit(key, attrs[i].value);
      }
    }
    WholePrefix(attrs);
    text := writer.Finish(Selected(attrs, selector, true));
    text := text + " 1\n";
  }

  /** The labels on `target_info`: emitted attributes first, then the static ones. */
  function TargetLabels(attrs: seq<Attribute>, selector: Selector): seq<Label> {
    Selected(attrs, selector, false) + Selected(attrs, selector, true)
  }

  /** One label for each attribute, with its sanitized key and its own value. */
  function AllLabels(attrs: seq<Attribute>): (labels: seq<Label>)
    ensures |labels| == |attrs|
    ensures forall i | 0 <= i < |attrs| ::
              labels[i].key == Sanitized(attrs[i].key) && labels[i].value == attrs[i].value
  {
    seq(|attrs|, i requires 0 <= i < |attrs| => LabelOf(attrs[i]))
  }

  lemma AllLabelsSnoc(attrs: seq<Attribute>)
    requires attrs != []
    ensures AllLabels(attrs) == AllLabels(attrs[..|attrs| - 1]) + [LabelOf(attrs[|attrs| - 1])]
  {}

  lemma SanitizedHasNoEquals(name: string)
    ensures '=' !in Sanitized(name)
  {
    SanitizedIsName(name);
  }

  lemma NamesSnoc(labels: seq<Label>, l: Label)
    requires NamesOnly(labels) && '=' !in l.key
    ensures NamesOnly(labels + [l])
  {}

  lemma {:induction false} SelectedNames(attrs: seq<Attribute>, selector: Selector, matching: bool)
    ensures NamesOnly(Selected(attrs, selector, matching))
  {
    if attrs != [] {
      var init, last := attrs[..|attrs| - 1], attrs[|attrs| - 1];
      SelectedNames(init, selector, matching);
      SanitizedHasNoEquals(last.key);
      NamesSnoc(Selected(init, selector, matching), LabelOf(last));
    }
  }

  lemma OneLabelMore(a: seq<Label>, b: seq<Label>, all: seq<Label>, l: Label)
    requires multiset(a) + multiset(b) == multiset(all)
    ensures multiset(a + [l]) + multiset(b) == multiset(all + [l])
    ensures multiset(a) + multiset(b + [l]) == multiset(all + [l])
  {}

  lemma {:induction false} SelectedSplits(attrs: seq<Attribute>, selector: Selector)
    ensures multiset(Selected(attrs, selector, false)) + multiset(Selected(attrs, selector, true))
         == multiset(AllLabels(attrs))
  {
    if attrs != [] {
      var init, last := attrs[..|attrs| - 1], attrs[|attrs| - 1];
      SelectedSplits(init, selector);
      AllLabelsSnoc(attrs);
      OneLabelMore(Selected(init, selector, false), Selected(init, selector, true), AllLabels(init), LabelOf(last));
    }
  }

  lemma {:induction false} SelectedAppend(a: seq<Attribute>, b: seq<Attribute>, selector: Selector, matching: bool)
    ensures Selected(a + b, selector, matching) == Selected(a, selector, matching) + Selected(b, selector, matching)
    decreases |b|
  {
    if b == [] {
      assert a + b == a;
    } else {
      InitLast(a, b);
      SelectedAppend(a, b[..|b| - 1], selector, matching);
      Assoc(Selected(a, selector, matching), Selected(b[..|b| - 1], selector, matching), [LabelOf(b[|b| - 1])]);
    }
  }

  /**
   Which attributes become static labels, in order: all of them, none, or those whose key is on
   the list; the others are the emitted ones. Keys are sanitized, values are kept.
   */
  lemma SelectedMeans(a: Attribute, keys: set<string>, before: seq<Attribute>, after: seq<Attribute>, selector: Selector)
    ensures var own := Label(Sanitized(a.key), a.value);
            && Selected([a], SelectAll, true) == [own] && Selected([a], SelectAll, false) == []
            && Selected([a], SelectNone, true) == [] && Selected([a], SelectNone, false) == [own]
            && Selected([a], AllowList(keys), true) == (if a.key in keys then [own] else [])
            && Selected([a], AllowList(keys), false) == (if a.key in keys then [] else [own])
    ensures forall matching ::
              Selected(before + after, selector, matching)
              == Selected(before, selector, matching) + Selected(after, selector, matching)
  {
    assert [a][..0] == [];
    SelectedAppend(before, after, selector, true);
    SelectedAppend(before, after, selector, false);
  }

  /**
   For any resource and selector, the label block of `target_info` reads back to labels in
   which each attribute of the resource appears exactly once, be it static or emitted, with its
   sanitized key and its own value.
   */
  lemma TargetInfoIsComplete(printable: char -> bool, attrs: seq<Attribute>, selector: Selector)
    ensures var labels := TargetLabels(attrs, selector);
            && labels == Selected(attrs, selector, false) + Selected(attrs, selector, true)
            && ReadBlock(Block(printable, labels) + " 1\n") == Some((labels, " 1\n"))
            && multiset(labels) == multiset(AllLabels(attrs)) && |AllLabels(attrs)| == |attrs|
            && forall i | 0 <= i < |attrs| :: AllLabels(attrs)[i] == Label(Sanitized(attrs[i].key), attrs[i].value)
  {
    SelectedSplits(attrs, selector);
    SelectedNames(attrs, selector, true);
    SelectedNames(attrs, selector, false);
    BlockRoundTrip(printable, TargetLabels(attrs, selector), " 1\n");
  }
}
