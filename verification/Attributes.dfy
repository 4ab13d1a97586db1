/** Header attributes: the parser, and the quoting it undoes (quoted strings of section 3.2.6 of RFC 7230). */
module Attributes {
  import opened Text

  type Attribute = (string, string)

  // --- what the parser computes -----------------------------------------------------------------

  /** IsEndOfAttributeName: an equals sign ends a name only when a value seems to follow. */
  predicate EndsName(data: string, pos: nat) {
    || pos >= |data|
    || IsSpace(data[pos])
    || (pos + 1 < |data| && data[pos] == '=' && !IsSpace(data[pos + 1]) && data[pos + 1] != '=')
  }

  function NameLength(data: string, from: nat): (n: nat)
    requires from <= |data|
    ensures from <= n <= |data| && EndsName(data, n)
    ensures forall i | from <= i < n :: !EndsName(data, i)
    decreases |data| - from
  {
    if EndsName(data, from) then from else NameLength(data, from + 1)
  }

  /** The value after an opening quote, and how much of the text it takes with its closing quote. */
  function Unquote(s: string): (r: (string, nat))
    ensures r.1 <= |s|
  {
    if s == "" then ("", 0)
    else if s[0] == '"' then ("", 1)
    else if s[0] == '\\' && |s| > 1 then
      var (v, n) := Unquote(s[2..]);
      ([s[1]] + v, n + 2)
    else
      var (v, n) := Unquote(s[1..]);
      ([s[0]] + v, n + 1)
  }

  /** Length of a value without quotes: up to white space or a comma. */
  function BareLength(s: string): (n: nat)
    ensures n <= |s| && (n < |s| ==> IsSpace(s[n]) || s[n] == ',')
    ensures forall i | 0 <= i < n :: !IsSpace(s[i]) && s[i] != ','
  {
    if s == "" || IsSpace(s[0]) || s[0] == ',' then 0 else 1 + BareLength(s[1..])
  }

  /** The value after the equals sign, and how much of the text it takes. */
  function ParseValue(s: string): (r: (string, nat))
    ensures r.1 <= |s|
  {
    if s != "" && s[0] == '"' then
      var (v, n) := Unquote(s[1..]);
      (v, n + 1)
    else (s[..BareLength(s)], BareLength(s))
  }

  /** One attribute at the front of the text, and how much of the text it takes with a comma after it. */
  function ParseOne(s: string): (r: (Attribute, nat))
    requires s != "" && !IsSpace(s[0])
    ensures 0 < r.1 <= |s|
  {
    var n := NameLength(s, 0);
    var (value, end) :=
      if n < |s| && s[n] == '=' then
        var (v, k) := ParseValue(s[n + 1..]);
        (v, n + 1 + k)
      else ("", n);
    ((s[..n], value), if end < |s| && s[end] == ',' then end + 1 else end)
  }

  function Parse(s: string): seq<Attribute>
    decreases |s|
  {
    var t := s[LeadingSpaces(s)..];
    if t == "" then []
    else
      var (a, n) := ParseOne(t);
      [a] + Parse(t[n..])
  }

  // --- the code ---------------------------------------------------------------------------------

  /** A partial result: `value` read so far over n characters, then whatever r gives. */
  function Then(value: string, n: nat, r: (string, nat)): (string, nat) {
    (value + r.0, n + r.1)
  }

  lemma {:induction false} UnquoteCons(s: string)
    requires s != "" && s[0] != '"'
    ensures s[0] == '\\' && |s| > 1 ==> Unquote(s) == ([s[1]] + Unquote(s[2..]).0, Unquote(s[2..]).1 + 2)
    ensures !(s[0] == '\\' && |s| > 1) ==> Unquote(s) == ([s[0]] + Unquote(s[1..]).0, Unquote(s[1..]).1 + 1)
  {
  }

  lemma ThenOneMore(value: string, n: nat, c: char, k: nat, r: (string, nat))
    ensures Then(value, n, ([c] + r.0, r.1 + k)) == Then(value + [c], n + k, r)
  {
    assert value + ([c] + r.0) == value + [c] + r.0;
  }

  /** The loop over a quoted value, from its opening quote. */
  method ReadQuoted(data: string, open: nat) returns (value: string, pos: nat)
    requires open < |data|
    ensures open < pos <= |data|
    ensures (value, pos - open - 1) == Unquote(data[open + 1..])
  {
    hide Unquote;
    value, pos := "", open + 1;
    ghost var whole := Unquote(data[open + 1..]);
    assert "" + whole.0 == whole.0;
    while pos < |data|
      invariant open < pos <= |data|
      invariant Then(value, pos - open - 1, Unquote(data[pos..])) == whole
    {
      ghost var rest := data[pos..];
      UnquoteStop(rest);
      if data[pos] == '"' {
        assert value + "" == value;
        pos := pos + 1;
        return;
      }
      UnquoteCons(rest);
      ghost var n := pos - open - 1;
      if data[pos] == '\\' && pos + 1 < |data| {
        assert rest[1] == data[pos + 1] && rest[2..] == data[pos + 2..];
        pos := pos + 1;
        ThenOneMore(value, n, data[pos], 2, Unquote(data[pos + 1..]));
      } else {
        assert rest[1..] == data[pos + 1..];
        ThenOneMore(value, n, data[pos], 1, Unquote(data[pos + 1..]));
      }
      value := value + [data[pos]];
      pos := pos + 1;
    }
    UnquoteStop(data[pos..]);
    assert value + "" == value;
  }

  lemma {:induction false} UnquoteStop(s: string)
    ensures s == "" ==> Unquote(s) == ("", 0)
    ensures s != "" && s[0] == '"' ==> Unquote(s) == ("", 1)
  {
  }

  method ReadBare(data: string, start: nat) returns (value: string, pos: nat)
    requires start <= |data|
    ensures start <= pos <= |data| && pos - start == BareLength(data[start..]) && value == data[start..pos]
  {
    value, pos := "", start;
    while pos < |data| && !IsSpace(data[pos]) && data[pos] != ','
      invariant start <= pos <= |data| && value == data[start..pos]
      invariant pos - start + BareLength(data[pos..]) == BareLength(data[start..])
    {
      assert data[pos..][1..] == data[pos + 1..];
      value := value + [data[pos]];
      pos := pos + 1;
    }
  }

  method SkipSpaces(data: string, from: nat) returns (pos: nat)
    requires from <= |data|
    ensures from <= pos <= |data| && (pos < |data| ==> !IsSpace(data[pos]))
    ensures data[pos..] == data[from..][LeadingSpaces(data[from..])..]
  {
    pos := from;
    while pos < |data| && IsSpace(data[pos])
      invariant from <= pos <= |data|
      invariant pos - from + LeadingSpaces(data[pos..]) == LeadingSpaces(data[from..])
    {
      assert data[pos..][1..] == data[pos + 1..];
      pos := pos + 1;
    }
    assert LeadingSpaces(data[pos..]) == 0;
  }

  lemma ParseStep(s: string)
    ensures var t := s[LeadingSpaces(s)..];
            if t == "" then Parse(s) == [] else Parse(s) == [ParseOne(t).0] + Parse(t[ParseOne(t).1..])
  {
    hide ParseOne, LeadingSpaces;
  }

  /** HttpParseAttributes: terminates on every input. */
  method ParseAttributes(data: string) returns (attributes: seq<Attribute>)
    ensures attributes == Parse(data)
  {
    hide ParseOne, LeadingSpaces, Parse;
    attributes := [];
    var pos := 0;
    assert data[0..] == data;
    while true
      invariant pos <= |data| && attributes + Parse(data[pos..]) == Parse(data)
      decreases |data| - pos
    {
      ParseStep(data[pos..]);
      var start := SkipSpaces(data, pos);
      if start >= |data| {
        return;
      }
      var attribute, next := ReadAttribute(data, start);
      assert data[start..][next - start..] == data[next..];
      assert attributes + ([attribute] + Parse(data[next..])) == attributes + [attribute] + Parse(data[next..]);
      attributes := attributes + [attribute];
      pos := next;
    }
  }

  method ReadName(data: string, start: nat) returns (pos: nat)
    requires start <= |data|
    ensures start <= pos <= |data| && pos - start == NameLength(data[start..], 0)
  {
    ghost var s := data[start..];
    pos := start;
    while !EndsName(data, pos)
      invariant start <= pos <= |data|
      invariant NameLength(s, pos - start) == NameLength(s, 0)
      decreases |data| - pos
    {
      SameEnd(data, start, pos);
      pos := pos + 1;
    }
    SameEnd(data, start, pos);
  }

  lemma SameEnd(data: string, start: nat, pos: nat)
    requires start <= pos <= |data|
    ensures EndsName(data[start..], pos - start) == EndsName(data, pos)
  {
  }

  method ReadValue(data: string, start: nat) returns (value: string, pos: nat)
    requires start <= |data|
    ensures start <= pos <= |data| && (value, pos - start) == ParseValue(data[start..])
  {
    hide Unquote, BareLength;
    if start < |data| && data[start] == '"' {
      assert data[start..][1..] == data[start + 1..];
      value, pos := ReadQuoted(data, start);
    } else {
      value, pos := ReadBare(data, start);
      assert value == data[start..][..pos - start];
    }
  }

  method ReadAttribute(data: string, start: nat) returns (attribute: Attribute, pos: nat)
    requires start < |data| && !IsSpace(data[start])
    ensures start < pos <= |data| && (attribute, pos - start) == ParseOne(data[start..])
  {
    hide ParseValue, NameLength;
    ghost var s := data[start..];
    pos := ReadName(data, start);
    var name := data[start..pos];
    assert name == s[..pos - start];
    var value := "";
    if pos < |data| && data[pos] == '=' {
      assert s[pos - start + 1..] == data[pos + 1..];
      value, pos := ReadValue(data, pos + 1);
    }
    attribute := (name, value);
    if pos < |data| && data[pos] == ',' {
      pos := pos + 1;
    }
  }

  // --- quoting, and parsing it back -----------------------------------------------------------------

  /** The characters of a value with quotes and backslashes escaped. */
  function Escaped(value: string): string {
    if value == "" then ""
    else (if value[0] == '"' || value[0] == '\\' then ['\\', value[0]] else [value[0]]) + Escaped(value[1..])
  }

  function Quote(value: string): string {
    "\"" + Escaped(value) + "\""
  }

  /** quote. */
  method QuoteString(value: string) returns (result: string)
    ensures result == Quote(value)
  {
    result := "\"";
    assert value[0..] == value;
    for i := 0 to |value|
      invariant result + Escaped(value[i..]) == "\"" + Escaped(value)
    {
      assert value[i..][1..] == value[i + 1..];
      ghost var before := result;
      if value[i] == '"' || value[i] == '\\' {
        result := result + ['\\'];
      }
      result := result + [value[i]];
      assert result + Escaped(value[i + 1..]) == before + Escaped(value[i..]);
    }
    assert result + "" == result;
    result := result + "\"";
  }

  /** Unquoting undoes quoting, whatever comes after the closing quote. */
  lemma {:induction false} UnquoteEscaped(value: string, rest: string)
    ensures Unquote(Escaped(value) + "\"" + rest) == (value, |Escaped(value)| + 1)
    decreases |value|
  {
    var s := Escaped(value) + "\"" + rest;
    if value == "" {
      assert s[0] == '"';
    } else {
      UnquoteEscaped(value[1..], rest);
      var head := if value[0] == '"' || value[0] == '\\' then ['\\', value[0]] else [value[0]];
      var tail := Escaped(value[1..]) + "\"" + rest;
      assert s == head + tail;
      assert s[|head|..] == tail;
      assert value == [value[0]] + value[1..];
    }
  }

  /** Names that survive: no white space, and equals signs only at the end. */
  predicate GoodName(name: string) {
    && (forall i | 0 <= i < |name| :: !IsSpace(name[i]))
    && (forall i | 0 <= i < |name| - 1 :: name[i] == '=' ==> name[i + 1] == '=')
  }

  function Item(a: Attribute): string {
    a.0 + "=" + Quote(a.1)
  }

  function Join(attributes: seq<Attribute>): string {
    if attributes == [] then ""
    else if |attributes| == 1 then Item(attributes[0])
    else Item(attributes[0]) + ", " + Join(attributes[1..])
  }

  lemma NameOfItem(a: Attribute, rest: string)
    requires GoodName(a.0)
    ensures NameLength(Item(a) + rest, 0) == |a.0|
  {
    var s := Item(a) + rest;
    var n := |a.0|;
    hide Escaped;
    assert s[n] == '=' && s[n + 1] == '"' && s[..n] == a.0;
    assert EndsName(s, n);
    forall i | 0 <= i < n
      ensures !EndsName(s, i)
    {
      assert s[i] == a.0[i];
      if i + 1 < n {
        assert s[i + 1] == a.0[i + 1];
      }
    }
  }

  lemma OneItem(a: Attribute, rest: string)
    requires GoodName(a.0) && (rest == "" || rest[0] == ',')
    ensures var s := Item(a) + rest;
            s != "" && !IsSpace(s[0]) && ParseOne(s) == (a, if rest == "" then |Item(a)| else |Item(a)| + 1)
  {
    var s := Item(a) + rest;
    var n := |a.0|;
    NameOfItem(a, rest);
    UnquoteEscaped(a.1, rest);
    assert s[n + 1..] == "\"" + (Escaped(a.1) + "\"" + rest);
    assert s[n + 1..][1..] == Escaped(a.1) + "\"" + rest;
    assert s[..n] == a.0 && s[n] == '=';
    hide Unquote, NameLength, Escaped;
    assert ParseValue(s[n + 1..]) == (a.1, |Quote(a.1)|);
    if rest != "" {
      assert s[|Item(a)|] == ',';
    }
  }

  lemma ParseAfterBlank(s: string)
    ensures Parse(" " + s) == Parse(s)
  {
    assert (" " + s)[1..] == s;
    assert LeadingSpaces(" " + s) == 1 + LeadingSpaces(s);
    assert (" " + s)[LeadingSpaces(" " + s)..] == s[LeadingSpaces(s)..];
    hide ParseOne, LeadingSpaces;
  }

  lemma LastItem(a: Attribute)
    requires GoodName(a.0)
    ensures Parse(Item(a)) == [a]
  {
    OneItem(a, "");
    hide ParseOne, Item, Parse;
    var s := Item(a);
    assert s + "" == s && s[|s|..] == "";
    FrontItem(s);
    ParseEmpty();
  }

  lemma ItemThenMore(a: Attribute, more: string)
    requires GoodName(a.0)
    ensures Parse(Item(a) + ", " + more) == [a] + Parse(more)
  {
    var rest := ", " + more;
    OneItem(a, rest);
    hide ParseOne, Item, Parse;
    var s := Item(a) + rest;
    assert s == Item(a) + ", " + more;
    assert s[|Item(a)| + 1..] == " " + more;
    FrontItem(s);
    ParseAfterBlank(more);
  }

  /** Joining and parsing gives the list back when all names are good. */
  lemma {:induction false} JoinParses(attributes: seq<Attribute>)
    requires forall i | 0 <= i < |attributes| :: GoodName(attributes[i].0)
    ensures Parse(Join(attributes)) == attributes
    decreases |attributes|
  {
    hide Parse, Item, GoodName;
    if attributes == [] {
      ParseEmpty();
    } else if |attributes| == 1 {
      LastItem(attributes[0]);
    } else {
      ItemThenMore(attributes[0], Join(attributes[1..]));
      JoinParses(attributes[1..]);
      assert attributes == [attributes[0]] + attributes[1..];
    }
  }

  lemma ParseEmpty()
    ensures Parse("") == []
  {
  }

  lemma FrontItem(s: string)
    requires s != "" && !IsSpace(s[0])
    ensures Parse(s) == [ParseOne(s).0] + Parse(s[ParseOne(s).1..])
  {
    ParseStep(s);
    hide ParseOne, Parse;
    assert LeadingSpaces(s) == 0 && s[0..] == s;
  }

  /** The parser only ever returns good names. */
  lemma {:induction false} ParsedNamesAreGood(s: string)
    ensures forall i | 0 <= i < |Parse(s)| :: GoodName(Parse(s)[i].0)
    decreases |s|
  {
    var t := s[LeadingSpaces(s)..];
    if t != "" {
      ParsedNameIsGood(t);
      hide ParseOne, LeadingSpaces, GoodName;
      var (a, n) := ParseOne(t);
      ParsedNamesAreGood(t[n..]);
    }
  }

  lemma ParsedNameIsGood(s: string)
    requires s != "" && !IsSpace(s[0])
    ensures GoodName(ParseOne(s).0.0)
  {
    var n := NameLength(s, 0);
    var name := s[..n];
    forall i | 0 <= i < n
      ensures !IsSpace(name[i]) && (i + 1 < n && name[i] == '=' ==> name[i + 1] == '=')
    {
      assert !EndsName(s, i);
      if i + 1 < n {
        assert !EndsName(s, i + 1);
      }
    }
    hide NameLength, ParseValue;
  }

  /** A list of name and value pairs survives joining and parsing exactly when all its names are good. */
  lemma RoundTripIff(attributes: seq<Attribute>)
    ensures Parse(Join(attributes)) == attributes <==> forall i | 0 <= i < |attributes| :: GoodName(attributes[i].0)
  {
    hide Parse, Join, GoodName;
    if forall i | 0 <= i < |attributes| :: GoodName(attributes[i].0) {
      JoinParses(attributes);
    }
    ParsedNamesAreGood(Join(attributes));
  }

  // --- lists as servers write them ------------------------------------------------------------------

  /** An attribute with its value in quotes, with a plain value, or with none. */
  datatype Written = InQuotes(name: string, value: string) | Plain(name: string, value: string) | NameOnly(name: string)

  function WrittenText(w: Written): string {
    match w
    case InQuotes(name, value) => Item((name, value))
    case Plain(name, value) => name + "=" + value
    case NameOnly(name) => name
  }

  function Meant(w: Written): Attribute {
    (w.name, if w.NameOnly? then "" else w.value)
  }

  /** A plain value has no white space and no comma, and begins neither with a quote nor with an equals sign. */
  predicate GoodItem(w: Written) {
    && GoodName(w.name)
    && (w.NameOnly? ==> w.name != "")
    && (w.Plain? ==> w.value != "" && w.value[0] != '"' && w.value[0] != '='
                     && forall i | 0 <= i < |w.value| :: !IsSpace(w.value[i]) && w.value[i] != ',')
  }

  /** A comma and a blank between attributes, but only a blank behind a name alone. */
  function ListText(list: seq<Written>): string {
    if list == [] then ""
    else WrittenText(list[0]) + (if |list| == 1 then "" else if list[0].NameOnly? then " " else ", ") + ListText(list[1..])
  }

  lemma NameEndsAt(name: string, rest: string)
    requires GoodName(name) && EndsName(name + rest, |name|) && (rest == "" || IsSpace(rest[0]) || rest[0] == '=')
    ensures NameLength(name + rest, 0) == |name|
  {
    var s, n := name + rest, |name|;
    forall i | 0 <= i < n
      ensures !EndsName(s, i)
    {
      assert s[i] == name[i];
      if i + 1 < n {
        assert s[i + 1] == name[i + 1];
      }
    }
  }

  lemma NameAlone(name: string, rest: string)
    requires GoodName(name) && name != "" && (rest == "" || IsSpace(rest[0]))
    ensures var s := name + rest; !IsSpace(s[0]) && ParseOne(s) == ((name, ""), |name|)
  {
    NameEndsAt(name, rest);
    hide NameLength, ParseValue;
    assert (name + rest)[..|name|] == name;
  }

  lemma PlainValue(value: string, rest: string)
    requires value != "" && value[0] != '"' && (rest == "" || IsSpace(rest[0]) || rest[0] == ',')
    requires forall i | 0 <= i < |value| :: !IsSpace(value[i]) && value[i] != ','
    ensures ParseValue(value + rest) == (value, |value|)
  {
    hide BareLength, Unquote;
    assert (value + rest)[..|value|] == value;
    assert forall i | 0 <= i < |value| :: (value + rest)[i] == value[i];
    assert rest != "" ==> (value + rest)[|value|] == rest[0];
  }

  lemma PlainItem(name: string, value: string, rest: string)
    requires GoodItem(Plain(name, value)) && (rest == "" || rest[0] == ',')
    ensures var s := name + "=" + value + rest;
            !IsSpace(s[0]) && ParseOne(s) == ((name, value), |name| + 1 + |value| + if rest == "" then 0 else 1)
  {
    hide NameLength, ParseValue, ParseOne;
    var s, n, tail := name + "=" + value + rest, |name|, "=" + value + rest;
    assert s == name + tail && tail[0] == '=' && tail[1] == value[0];
    assert s[n] == '=' && s[n + 1] == value[0];
    NameEndsAt(name, tail);
    PlainValue(value, rest);
    hide GoodItem, GoodName;
    assert s[n + 1..] == value + rest && s[..n] == name;
    NameThenValue(s, n, value, |value|);
    assert rest != "" ==> s[n + 1 + |value|] == rest[0];
  }

  lemma NameThenValue(s: string, n: nat, value: string, k: nat)
    requires s != "" && !IsSpace(s[0])
    requires NameLength(s, 0) == n < |s| && s[n] == '=' && ParseValue(s[n + 1..]) == (value, k)
    ensures var end := n + 1 + k;
            end <= |s| && ParseOne(s) == ((s[..n], value), if end < |s| && s[end] == ',' then end + 1 else end)
  {
    hide NameLength, ParseValue;
  }

  /** One attribute, however it is written, and what follows it. */
  lemma FrontWritten(w: Written, rest: string)
    requires GoodItem(w) && (rest == "" || if w.NameOnly? then IsSpace(rest[0]) else rest[0] == ',')
    ensures var s, comma := WrittenText(w) + rest, if rest == "" || w.NameOnly? then 0 else 1;
            s != "" && Parse(s) == [Meant(w)] + Parse(rest[comma..])
  {
    hide Parse, ParseOne, GoodName;
    var s := WrittenText(w) + rest;
    match w {
      case InQuotes(name, value) => OneItem((name, value), rest);
      case Plain(name, value) => PlainItem(name, value, rest);
      case NameOnly(name) => NameAlone(name, rest);
    }
    FrontItem(s);
    assert s[ParseOne(s).1..] == rest[if rest == "" || w.NameOnly? then 0 else 1..];
  }

  /** Any list of attributes with good names, quoted, plain or without values, in any mix, is read as it is meant. */
  lemma {:induction false} ListParses(list: seq<Written>)
    requires forall i | 0 <= i < |list| :: GoodItem(list[i])
    ensures Parse(ListText(list)) == seq(|list|, i requires 0 <= i < |list| => Meant(list[i]))
    decreases |list|
  {
    hide Parse, GoodItem, WrittenText;
    if list == [] {
      ParseEmpty();
    } else {
      var w, more := list[0], ListText(list[1..]);
      ListParses(list[1..]);
      if |list| == 1 {
        assert more == "" && WrittenText(w) + "" == WrittenText(w) && ""[0..] == "";
        FrontWritten(w, "");
        ParseEmpty();
      } else {
        var rest := (if w.NameOnly? then " " else ", ") + more;
        assert ListText(list) == WrittenText(w) + rest;
        FrontWritten(w, rest);
        assert rest[if w.NameOnly? then 0 else 1..] == " " + more;
        ParseAfterBlank(more);
      }
    }
  }
}
