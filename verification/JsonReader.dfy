/** The hand-written JSON reader of the dataflow compiler (crates/database/src/dataflow_compiler.rs).

  The reader finds its way by scanning for commas and colons outside of strings. It is proved to
  read back every value written canonically; text positions are counted in characters. */
module JsonReader {
  import opened Options
  import opened Values

  datatype Json<N> =
    | JNull
    | JBool(b: bool)
    | JNumber(n: N)
    | JString(s: string)
    | JArray(items: seq<Json<N>>)
    | JObject(entries: seq<Entry<N>>)

  datatype Entry<N> = Entry(key: string, value: Json<N>)

  /** The text form of floating-point numbers. */
  datatype Codec<!N> = Codec(show: N -> string, read: string -> Option<N>)

  predicate NumeralChar(c: char) {
    '0' <= c <= '9' || c == '+' || c == '-' || c == '.' || c == 'e' || c == 'E'
  }

  predicate Opening(c: char) { c == '"' || c == '{' || c == '[' }

  /** Numbers are shown as numerals and read back; text that opens a string, object or array is not
      a number. */
  ghost predicate Numerals<N(!new)>(codec: Codec<N>) {
    && (forall n :: codec.show(n) != [] && forall i :: 0 <= i < |codec.show(n)| ==> NumeralChar(codec.show(n)[i]))
    && (forall n :: codec.read(codec.show(n)) == Some(n))
    && (forall s {:trigger codec.read(s)} :: s != [] && Opening(s[0]) ==> codec.read(s) == None)
  }

  // ----- Trimming ------------------------------------------------------------------------------

  predicate IsSpace(c: char) {
    || '\U{9}' <= c <= '\U{D}' || c == ' ' || c == '\U{85}' || c == '\U{A0}' || c == '\U{1680}'
    || '\U{2000}' <= c <= '\U{200A}' || c == '\U{2028}' || c == '\U{2029}' || c == '\U{202F}'
    || c == '\U{205F}' || c == '\U{3000}'
  }

  function TrimStart(s: string): (t: string)
    ensures |t| <= |s|
    ensures s != [] && !IsSpace(s[0]) ==> t == s
  {
    if s != [] && IsSpace(s[0]) then TrimStart(s[1..]) else s
  }

  function TrimEnd(s: string): (t: string)
    ensures |t| <= |s|
    ensures s != [] && !IsSpace(s[|s| - 1]) ==> t == s
  {
    if s != [] && IsSpace(s[|s| - 1]) then TrimEnd(s[..|s| - 1]) else s
  }

  function Trim(s: string): (t: string)
    ensures |t| <= |s|
    ensures Tight(s) ==> t == s
  {
    TrimEnd(TrimStart(s))
  }

  /** Text that trimming leaves alone. */
  predicate Tight(s: string) { s != [] && !IsSpace(s[0]) && !IsSpace(s[|s| - 1]) }

  // ----- Escapes -------------------------------------------------------------------------------

  function Escape(s: string): string {
    if s == [] then []
    else
      var piece := match s[0]
        case '"' => "\\\""
        case '\\' => "\\\\"
        case '\n' => "\\n"
        case '\r' => "\\r"
        case '\t' => "\\t"
        case c => [c];
      piece + Escape(s[1..])
  }

  /** What a backslash followed by `c` stands for. */
  function Unescaped(c: char): string {
    match c
    case 'n' => "\n"
    case 't' => "\t"
    case 'r' => "\r"
    case '"' => "\""
    case '\\' => "\\"
    case '/' => "/"
    case other => ['\\', other]
  }

  function Unescape(s: string): string {
    if s == [] then []
    else if s[0] != '\\' then [s[0]] + Unescape(s[1..])
    else if |s| == 1 then "\\"
    else Unescaped(s[1]) + Unescape(s[2..])
  }

  lemma {:induction false} UnescapeEscape(s: string)
    ensures Unescape(Escape(s)) == s
  {
    if s != [] {
      UnescapeEscape(s[1..]);
      var e := Escape(s);
      if s[0] == '"' || s[0] == '\\' || s[0] == '\n' || s[0] == '\r' || s[0] == '\t' {
        assert e[2..] == Escape(s[1..]);
      } else {
        assert e[1..] == Escape(s[1..]);
      }
    }
  }

  method UnescapeJson(s: string) returns (result: string)
    ensures result == Unescape(s)
  {
    result := [];
    var i := 0;
    while i < |s|
      invariant i <= |s| && Unescape(s) == result + Unescape(s[i..])
    {
      var c := s[i];
      i := i + 1;
      if c == '\\' {
        if i < |s| {
          assert s[i - 1..][2..] == s[i + 1..];
          result := result + Unescaped(s[i]);
          i := i + 1;
        } else {
          result := result + ['\\'];
        }
      } else {
        assert s[i - 1..][1..] == s[i..];
        result := result + [c];
      }
    }
  }

  // ----- Scanning ------------------------------------------------------------------------------

  datatype Scanner = Scanner(depth: int, inString: bool, escape: bool) {
    function Advance(c: char): Scanner {
      if escape then this.(escape := false)
      else if c == '\\' && inString then this.(escape := true)
      else if c == '"' then this.(inString := !inString)
      else if inString then this
      else if c == '{' || c == '[' then this.(depth := depth + 1)
      else if c == '}' || c == ']' then this.(depth := depth - 1)
      else this
    }

    predicate Outside() { !escape && !inString }

    /** Quotes and brackets never separate. */
    predicate Separates(c: char, sep: char) { Outside() && c == sep && depth == 0 && !Structural(c) }
  }

  predicate Structural(c: char) { c == '"' || c == '{' || c == '[' || c == '}' || c == ']' }

  function Outer(depth: int): Scanner { Scanner(depth, false, false) }

  function Scan(scanner: Scanner, s: string): Scanner
    decreases |s|
  {
    if s == [] then scanner else Scan(scanner.Advance(s[0]), s[1..])
  }

  /** No top-level separator is met on the way through `s`. */
  predicate Quiet(scanner: Scanner, s: string, sep: char)
    decreases |s|
  {
    s != [] ==> !scanner.Separates(s[0], sep) && Quiet(scanner.Advance(s[0]), s[1..], sep)
  }

  /** `s` brings the scanner back to where it started and hides its separators. */
  predicate Balanced(depth: int, s: string) {
    Scan(Outer(depth), s) == Outer(depth) && Quiet(Outer(depth), s, ',')
  }

  lemma {:induction false} ScanConcat(scanner: Scanner, a: string, b: string)
    ensures Scan(scanner, a + b) == Scan(Scan(scanner, a), b)
    ensures Quiet(scanner, a + b, ',') <==> Quiet(scanner, a, ',') && Quiet(Scan(scanner, a), b, ',')
    decreases |a|
  {
    if a == [] {
      assert a + b == b;
    } else {
      assert (a + b)[1..] == a[1..] + b;
      ScanConcat(scanner.Advance(a[0]), a[1..], b);
    }
  }

  // ----- Splitting at separators ---------------------------------------------------------------

  function Split(scanner: Scanner, current: string, s: string, sep: char): (parts: seq<string>)
    ensures forall i :: 0 <= i < |parts| ==> |parts[i]| <= |current| + |s|
    decreases |s|
  {
    if s == [] then [current]
    else if scanner.Separates(s[0], sep) then [current] + Split(scanner, [], s[1..], sep)
    else Split(scanner.Advance(s[0]), current + [s[0]], s[1..], sep)
  }

  lemma SplitNext(scanner: Scanner, s: string, start: nat, index: nat, sep: char)
    requires start <= index < |s|
    ensures Split(scanner, s[start..index], s[index..], sep)
         == if scanner.Separates(s[index], sep)
            then [s[start..index]] + Split(scanner, [], s[index + 1..], sep)
            else Split(scanner.Advance(s[index]), s[start..index + 1], s[index + 1..], sep)
  {
    assert s[index..][1..] == s[index + 1..] && s[start..index + 1] == s[start..index] + [s[index]];
  }

  method SplitJsonTopLevel(s: string, sep: char) returns (parts: seq<string>)
    ensures parts == Split(Outer(0), [], s, sep)
  {
    parts := [];
    var depth, inString, escape, start := 0, false, false, 0;
    for index := 0 to |s|
      invariant 0 <= start <= index
      invariant Split(Outer(0), [], s, sep)
             == parts + Split(Scanner(depth, inString, escape), s[start..index], s[index..], sep)
    {
      var c := s[index];
      SplitNext(Scanner(depth, inString, escape), s, start, index, sep);
      if escape {
        escape := false;
        continue;
      }
      if c == '\\' && inString {
        escape := true;
        continue;
      }
      if c == '"' {
        inString := !inString;
        continue;
      }
      if inString {
        continue;
      }
      if c == '{' || c == '[' {
        depth := depth + 1;
      } else if c == '}' || c == ']' {
        depth := depth - 1;
      } else if c == sep && depth == 0 {
        parts := parts + [s[start..index]];
        start := index + 1;
        assert s[start..index + 1] == [];
      }
    }
    assert s[start..|s|] == s[start..];
    parts := parts + [s[start..]];
  }

  function Join(pieces: seq<string>, sep: char): string {
    if pieces == [] then []
    else if |pieces| == 1 then pieces[0]
    else pieces[0] + [sep] + Join(pieces[1..], sep)
  }

  lemma {:induction false} SplitPiece(scanner: Scanner, current: string, piece: string, rest: string)
    requires Quiet(scanner, piece, ',')
    ensures Split(scanner, current, piece + rest, ',') == Split(Scan(scanner, piece), current + piece, rest, ',')
    decreases |piece|
  {
    if piece == [] {
      assert piece + rest == rest && current + piece == current;
    } else {
      assert (piece + rest)[1..] == piece[1..] + rest;
      assert (current + [piece[0]]) + piece[1..] == current + piece;
      SplitPiece(scanner.Advance(piece[0]), current + [piece[0]], piece[1..], rest);
    }
  }

  /** Splitting undoes joining for balanced pieces. */
  lemma {:induction false} SplitJoin(pieces: seq<string>)
    requires pieces != [] && forall i :: 0 <= i < |pieces| ==> Balanced(0, pieces[i])
    ensures Split(Outer(0), [], Join(pieces, ','), ',') == pieces
  {
    var first := pieces[0];
    assert [] + first == first;
    if |pieces| == 1 {
      SplitPiece(Outer(0), [], first, []);
      assert first + [] == first;
    } else {
      var rest := Join(pieces[1..], ',');
      SplitJoin(pieces[1..]);
      SplitPiece(Outer(0), [], first, [','] + rest);
      assert first + ([','] + rest) == Join(pieces, ',');
      assert ([','] + rest)[1..] == rest;
    }
  }

  lemma {:induction false} JoinBalanced(depth: int, pieces: seq<string>)
    requires depth != 0 && forall i :: 0 <= i < |pieces| ==> Balanced(depth, pieces[i])
    ensures Balanced(depth, Join(pieces, ','))
  {
    if |pieces| > 1 {
      var rest := Join(pieces[1..], ',');
      JoinBalanced(depth, pieces[1..]);
      ScanConcat(Outer(depth), pieces[0], [','] + rest);
      assert ([','] + rest)[1..] == rest;
      assert pieces[0] + ([','] + rest) == Join(pieces, ',');
    }
  }

  lemma {:induction false} JoinTight(pieces: seq<string>)
    requires pieces != [] && forall i :: 0 <= i < |pieces| ==> Tight(pieces[i])
    ensures Tight(Join(pieces, ','))
  {
    if |pieces| > 1 {
      JoinTight(pieces[1..]);
    }
  }

  // ----- Finding the colon ---------------------------------------------------------------------

  function Colon(scanner: Scanner, s: string): (at: Option<nat>)
    ensures at.Some? ==> at.value < |s|
    decreases |s|
  {
    if s == [] then None
    else if scanner.Outside() && s[0] == ':' then Some(0)
    else
      match Colon(scanner.Advance(s[0]), s[1..])
      case None => None
      case Some(k) => Some(k + 1)
  }

  method FindJsonColon(s: string) returns (at: Option<nat>)
    ensures at == Colon(Outer(0), s)
  {
    var inString, escape := false, false;
    ghost var depth := 0;
    for index := 0 to |s|
      invariant Colon(Outer(0), s) == match Colon(Scanner(depth, inString, escape), s[index..])
                                      case None => None
                                      case Some(k) => Some(k + index)
    {
      var c := s[index];
      assert s[index..][1..] == s[index + 1..];
      depth := Scanner(depth, inString, escape).Advance(c).depth;
      if escape {
        escape := false;
        continue;
      }
      if c == '\\' && inString {
        escape := true;
        continue;
      }
      if c == '"' {
        inString := !inString;
        continue;
      }
      if !inString && c == ':' {
        return Some(index);
      }
    }
    return None;
  }

  // ----- Objects -------------------------------------------------------------------------------

  predicate KeyBefore(a: string, b: string) { CompareCodes(Codes(a), Codes(b)) == Less }

  /** Sets `key`, keeping the entries sorted. */
  function Insert<N>(entries: seq<Entry<N>>, key: string, value: Json<N>): seq<Entry<N>> {
    if entries == [] || KeyBefore(key, entries[0].key) then [Entry(key, value)] + entries
    else if key == entries[0].key then [Entry(key, value)] + entries[1..]
    else [entries[0]] + Insert(entries[1..], key, value)
  }

  ghost predicate SortedKeys<N>(entries: seq<Entry<N>>) {
    forall i, j :: 0 <= i < j < |entries| ==> KeyBefore(entries[i].key, entries[j].key)
  }

  /** Objects hold their keys in strictly ascending order. */
  ghost predicate WellFormed<N>(v: Json<N>) {
    match v
    case JArray(items) => forall i :: 0 <= i < |items| ==> WellFormed(items[i])
    case JObject(entries) => SortedKeys(entries) && forall i :: 0 <= i < |entries| ==> WellFormed(entries[i].value)
    case _ => true
  }

  lemma KeyOrder(a: string, b: string)
    requires KeyBefore(a, b)
    ensures !KeyBefore(b, a) && a != b
  {
    CodesMirror(Codes(a), Codes(b));
  }

  lemma {:induction false} InsertLast<N>(entries: seq<Entry<N>>, key: string, value: Json<N>)
    requires SortedKeys(entries + [Entry(key, value)])
    ensures Insert(entries, key, value) == entries + [Entry(key, value)]
  {
    if entries != [] {
      var all := entries + [Entry(key, value)];
      assert KeyBefore(all[0].key, all[|entries|].key);
      KeyOrder(entries[0].key, key);
      forall i, j | 0 <= i < j <= |entries[1..]|
        ensures KeyBefore((entries[1..] + [Entry(key, value)])[i].key, (entries[1..] + [Entry(key, value)])[j].key)
      {
        assert KeyBefore(all[i + 1].key, all[j + 1].key);
      }
      InsertLast(entries[1..], key, value);
    }
  }

  function Lookup<N>(entries: seq<Entry<N>>, key: string): Option<Json<N>> {
    if entries == [] then None
    else if entries[0].key == key then Some(entries[0].value)
    else Lookup(entries[1..], key)
  }

  /** Insertion sets one key and keeps the others, so that the last of several equal keys wins. */
  lemma {:induction false} InsertSets<N>(entries: seq<Entry<N>>, key: string, value: Json<N>, other: string)
    requires SortedKeys(entries)
    ensures Lookup(Insert(entries, key, value), other) == if other == key then Some(value) else Lookup(entries, other)
  {
    if entries == [] {
    } else if KeyBefore(key, entries[0].key) {
      assert ([Entry(key, value)] + entries)[1..] == entries;
    } else if key == entries[0].key {
      assert ([Entry(key, value)] + entries[1..])[1..] == entries[1..];
    } else {
      InsertSets(entries[1..], key, value, other);
      var tail := Insert(entries[1..], key, value);
      assert ([entries[0]] + tail)[1..] == tail;
    }
  }

  /** Insertion keeps the keys sorted and brings in no other key. */
  lemma {:induction false} InsertKeepsSorted<N>(entries: seq<Entry<N>>, key: string, value: Json<N>)
    requires SortedKeys(entries)
    ensures SortedKeys(Insert(entries, key, value))
    ensures forall e :: e in Insert(entries, key, value) ==> e.key == key || e in entries
  {
    if entries == [] {
    } else if KeyBefore(key, entries[0].key) {
      BeforeAll(entries, key);
    } else if key == entries[0].key {
    } else {
      KeysTotal(key, entries[0].key);
      InsertKeepsSorted(entries[1..], key, value);
      var tail := Insert(entries[1..], key, value);
      forall i | 0 <= i < |tail| ensures KeyBefore(entries[0].key, tail[i].key) {
        assert tail[i] in tail;
      }
    }
  }

  lemma KeysTotal(a: string, b: string)
    ensures KeyBefore(a, b) || a == b || KeyBefore(b, a)
  {
    CodesMirror(Codes(a), Codes(b));
    if Codes(a) == Codes(b) {
      assert forall i :: 0 <= i < |a| ==> Codes(a)[i] == a[i] as int && Codes(b)[i] == b[i] as int;
      assert a == b;
    }
  }

  lemma KeyTransitive(a: string, b: string, c: string)
    requires KeyBefore(a, b) && KeyBefore(b, c)
    ensures KeyBefore(a, c)
  {
    CodesTransitive(Codes(a), Codes(b), Codes(c));
    CodesMirror(Codes(a), Codes(c));
    CodesMirror(Codes(a), Codes(b));
  }

  lemma BeforeAll<N>(entries: seq<Entry<N>>, key: string)
    requires SortedKeys(entries) && entries != [] && KeyBefore(key, entries[0].key)
    ensures forall i :: 0 <= i < |entries| ==> KeyBefore(key, entries[i].key)
  {
    forall i | 0 < i < |entries| ensures KeyBefore(key, entries[i].key) {
      KeyTransitive(key, entries[0].key, entries[i].key);
    }
  }

  // ----- Writing -------------------------------------------------------------------------------

  function Quote(s: string): string { "\"" + Escape(s) + "\"" }

  /** The canonical text of a value. */
  function Write<N>(codec: Codec<N>, v: Json<N>): string {
    match v
    case JNull => "null"
    case JBool(b) => if b then "true" else "false"
    case JNumber(n) => codec.show(n)
    case JString(s) => Quote(s)
    case JArray(items) =>
      "[" + Join(seq(|items|, i requires 0 <= i < |items| => Write(codec, items[i])), ',') + "]"
    case JObject(entries) =>
      "{" + Join(seq(|entries|, i requires 0 <= i < |entries| => Pair(entries[i].key, Write(codec, entries[i].value))), ',') + "}"
  }

  function Pair(key: string, value: string): string { Quote(key) + ":" + value }

  function Items<N>(codec: Codec<N>, items: seq<Json<N>>): seq<string> {
    seq(|items|, i requires 0 <= i < |items| => Write(codec, items[i]))
  }

  function Pairs<N>(codec: Codec<N>, entries: seq<Entry<N>>): seq<string> {
    seq(|entries|, i requires 0 <= i < |entries| => Pair(entries[i].key, Write(codec, entries[i].value)))
  }

  // ----- Reading -------------------------------------------------------------------------------

  function Read<N>(codec: Codec<N>, text: string): Option<Json<N>>
    decreases |text|, 1, 0
  {
    var s := Trim(text);
    if s == "null" then Some(JNull)
    else if s == "true" then Some(JBool(true))
    else if s == "false" then Some(JBool(false))
    else if codec.read(s).Some? then Some(JNumber(codec.read(s).value))
    else if |s| >= 2 && s[0] == '"' && s[|s| - 1] == '"' then Some(JString(Unescape(s[1..|s| - 1])))
    else if s != [] && s[0] == '{' then ReadObject(codec, s)
    else if s != [] && s[0] == '[' then ReadArray(codec, s)
    else None
  }

  function ReadObject<N>(codec: Codec<N>, text: string): Option<Json<N>>
    decreases |text|, 0, 0
  {
    var s := Trim(text);
    if s == [] || s[0] != '{' || s[|s| - 1] != '}' then None
    else
      var inner := Trim(s[1..|s| - 1]);
      if inner == [] then Some(JObject([]))
      else ReadPairs(codec, Split(Outer(0), [], inner, ','), [], |inner|)
  }

  function ReadArray<N>(codec: Codec<N>, text: string): Option<Json<N>>
    decreases |text|, 0, 0
  {
    var s := Trim(text);
    if s == [] || s[0] != '[' || s[|s| - 1] != ']' then None
    else
      var inner := Trim(s[1..|s| - 1]);
      if inner == [] then Some(JArray([]))
      else ReadItems(codec, Split(Outer(0), [], inner, ','), [], |inner|)
  }

  function ReadItems<N>(codec: Codec<N>, parts: seq<string>, items: seq<Json<N>>, size: nat): Option<Json<N>>
    requires forall i :: 0 <= i < |parts| ==> |parts[i]| <= size
    decreases size, 3, |parts|
  {
    if parts == [] then Some(JArray(items))
    else
      match Read(codec, Trim(parts[0]))
      case None => None
      case Some(v) => ReadItems(codec, parts[1..], items + [v], size)
  }

  function ReadPairs<N>(codec: Codec<N>, parts: seq<string>, entries: seq<Entry<N>>, size: nat): Option<Json<N>>
    requires forall i :: 0 <= i < |parts| ==> |parts[i]| <= size
    decreases size, 3, |parts|
  {
    if parts == [] then Some(JObject(entries))
    else
      match ReadPair(codec, parts[0])
      case None => None
      case Some(e) => ReadPairs(codec, parts[1..], Insert(entries, e.key, e.value), size)
  }

  function ReadPair<N>(codec: Codec<N>, part: string): Option<Entry<N>>
    decreases |part|, 2, 0
  {
    var pair := Trim(part);
    match Colon(Outer(0), pair)
    case None => None
    case Some(colon) =>
      match Unquoted(Trim(pair[..colon]))
      case None => None
      case Some(key) =>
        match Read(codec, Trim(pair[colon + 1..]))
        case None => None
        case Some(v) => Some(Entry(key, v))
  }

  function Unquoted(s: string): Option<string> {
    if |s| >= 2 && s[0] == '"' && s[|s| - 1] == '"' then Some(Unescape(s[1..|s| - 1])) else None
  }

  method ParseJsonText<N>(codec: Codec<N>, text: string) returns (result: Option<Json<N>>)
    ensures result == Read(codec, text)
    decreases |text|, 1
  {
    var s := Trim(text);
    if s == "null" {
      return Some(JNull);
    }
    if s == "true" {
      return Some(JBool(true));
    }
    if s == "false" {
      return Some(JBool(false));
    }
    if codec.read(s).Some? {
      return Some(JNumber(codec.read(s).value));
    }
    if |s| >= 2 && s[0] == '"' && s[|s| - 1] == '"' {
      var inner := UnescapeJson(s[1..|s| - 1]);
      return Some(JString(inner));
    }
    if s != [] && s[0] == '{' {
      result := ParseJsonObject(codec, s);
    } else if s != [] && s[0] == '[' {
      result := ParseJsonArray(codec, s);
    } else {
      result := None;
    }
  }

  method ParseJsonObject<N>(codec: Codec<N>, text: string) returns (result: Option<Json<N>>)
    ensures result == ReadObject(codec, text)
    decreases |text|, 0
  {
    var s := Trim(text);
    if s == [] || s[0] != '{' || s[|s| - 1] != '}' {
      return None;
    }
    var inner := Trim(s[1..|s| - 1]);
    if inner == [] {
      return Some(JObject([]));
    }
    var parts := SplitJsonTopLevel(inner, ',');
    result := ParsePairs(codec, parts, |inner|);
  }

  /** The loop over the pairs of an object. */
  method ParsePairs<N>(codec: Codec<N>, parts: seq<string>, size: nat) returns (result: Option<Json<N>>)
    requires forall i :: 0 <= i < |parts| ==> |parts[i]| <= size
    ensures result == ReadPairs(codec, parts, [], size)
    decreases size, 3
  {
    var entries := [];
    for i := 0 to |parts|
      invariant ReadPairs(codec, parts, [], size) == ReadPairs(codec, parts[i..], entries, size)
    {
      assert parts[i..][1..] == parts[i + 1..];
      var entry := ParsePair(codec, parts[i]);
      if entry == None {
        return None;
      }
      entries := Insert(entries, entry.value.key, entry.value.value);
    }
    result := Some(JObject(entries));
  }

  method ParsePair<N>(codec: Codec<N>, part: string) returns (entry: Option<Entry<N>>)
    ensures entry == ReadPair(codec, part)
    decreases |part|, 2
  {
    var pair := Trim(part);
    var colon := FindJsonColon(pair);
    if colon == None {
      return None;
    }
    var key := ParseQuoted(Trim(pair[..colon.value]));
    if key == None {
      return None;
    }
    var value := ParseJsonText(codec, Trim(pair[colon.value + 1..]));
    if value == None {
      return None;
    }
    return Some(Entry(key.value, value.value));
  }

  method ParseQuoted(s: string) returns (text: Option<string>)
    ensures text == Unquoted(s)
  {
    if |s| >= 2 && s[0] == '"' && s[|s| - 1] == '"' {
      var inner := UnescapeJson(s[1..|s| - 1]);
      return Some(inner);
    }
    return None;
  }

  method ParseJsonArray<N>(codec: Codec<N>, text: string) returns (result: Option<Json<N>>)
    ensures result == ReadArray(codec, text)
    decreases |text|, 0
  {
    var s := Trim(text);
    if s == [] || s[0] != '[' || s[|s| - 1] != ']' {
      return None;
    }
    var inner := Trim(s[1..|s| - 1]);
    if inner == [] {
      return Some(JArray([]));
    }
    var parts := SplitJsonTopLevel(inner, ',');
    result := ParseItems(codec, parts, |inner|);
  }

  /** The loop over the elements of an array. */
  method ParseItems<N>(codec: Codec<N>, parts: seq<string>, size: nat) returns (result: Option<Json<N>>)
    requires forall i :: 0 <= i < |parts| ==> |parts[i]| <= size
    ensures result == ReadItems(codec, parts, [], size)
    decreases size, 3
  {
    var items := [];
    for i := 0 to |parts|
      invariant ReadItems(codec, parts, [], size) == ReadItems(codec, parts[i..], items, size)
    {
      assert parts[i..][1..] == parts[i + 1..];
      var item := ParseJsonText(codec, Trim(parts[i]));
      if item == None {
        return None;
      }
      items := items + [item.value];
    }
    result := Some(JArray(items));
  }

  // ----- Reading back what was written ---------------------------------------------------------

  lemma WriteArray<N>(codec: Codec<N>, items: seq<Json<N>>)
    ensures Write(codec, JArray(items)) == "[" + Join(Items(codec, items), ',') + "]"
  {
    assert Items(codec, items) == seq(|items|, i requires 0 <= i < |items| => Write(codec, JArray(items).items[i]));
  }

  lemma WriteObject<N>(codec: Codec<N>, entries: seq<Entry<N>>)
    ensures Write(codec, JObject(entries)) == "{" + Join(Pairs(codec, entries), ',') + "}"
  {
    var v := JObject(entries);
    assert Pairs(codec, entries)
        == seq(|entries|, i requires 0 <= i < |entries| => Pair(v.entries[i].key, Write(codec, v.entries[i].value)));
  }

  lemma {:induction false} EscapeStaysInside(depth: int, s: string)
    ensures Scan(Scanner(depth, true, false), Escape(s)) == Scanner(depth, true, false)
    ensures Quiet(Scanner(depth, true, false), Escape(s), ',')
    ensures Colon(Scanner(depth, true, false), Escape(s)) == None
  {
    if s != [] {
      EscapeStaysInside(depth, s[1..]);
      var e := Escape(s);
      if s[0] == '"' || s[0] == '\\' || s[0] == '\n' || s[0] == '\r' || s[0] == '\t' {
        assert e[1..][1..] == Escape(s[1..]);
      } else {
        assert e[1..] == Escape(s[1..]);
      }
    }
  }

  lemma QuoteBalanced(depth: int, s: string)
    ensures Balanced(depth, Quote(s)) && Tight(Quote(s))
  {
    var inside := Scanner(depth, true, false);
    EscapeStaysInside(depth, s);
    ScanConcat(inside, Escape(s), "\"");
    assert "\""[1..] == "";
    assert Scan(inside, "\"") == Outer(depth) && Quiet(inside, "\"", ',');
    assert Quote(s)[1..] == Escape(s) + "\"";
  }

  lemma {:induction false} NumeralBalanced(depth: int, s: string)
    requires forall i :: 0 <= i < |s| ==> NumeralChar(s[i])
    ensures Balanced(depth, s)
    decreases |s|
  {
    if s != [] {
      assert NumeralChar(s[0]) && Outer(depth).Advance(s[0]) == Outer(depth);
      forall i | 0 <= i < |s[1..]| ensures NumeralChar(s[1..][i]) {
        assert s[1..][i] == s[i + 1];
      }
      NumeralBalanced(depth, s[1..]);
    }
  }

  /** Wrapping balanced inner text in brackets. */
  lemma BracketsBalanced(depth: int, open: char, inner: string, close: char)
    requires (open == '[' && close == ']') || (open == '{' && close == '}')
    requires Balanced(depth + 1, inner)
    ensures Balanced(depth, [open] + inner + [close]) && Tight([open] + inner + [close])
  {
    var text := [open] + inner + [close];
    ScanConcat(Outer(depth + 1), inner, [close]);
    assert [close][1..] == [];
    assert Scan(Outer(depth + 1), [close]) == Outer(depth) && Quiet(Outer(depth + 1), [close], ',');
    assert text[1..] == inner + [close];
  }

  lemma PairBalanced(depth: int, key: string, value: string)
    requires Balanced(depth, value) && Tight(value)
    ensures Balanced(depth, Pair(key, value)) && Tight(Pair(key, value))
  {
    QuoteBalanced(depth, key);
    ScanConcat(Outer(depth), Quote(key), ":" + value);
    assert (":" + value)[1..] == value;
    assert Quote(key) + (":" + value) == Pair(key, value);
  }

  lemma KeywordBalanced(depth: int)
    ensures Balanced(depth, "null") && Balanced(depth, "true") && Balanced(depth, "false")
    ensures Tight("null") && Tight("true") && Tight("false")
  {
    KeywordScan(depth, "null");
    KeywordScan(depth, "true");
    KeywordScan(depth, "false");
  }

  lemma {:induction false} KeywordScan(depth: int, s: string)
    requires forall i :: 0 <= i < |s| ==> 'a' <= s[i] <= 'z'
    ensures Balanced(depth, s)
    decreases |s|
  {
    if s != [] {
      assert 'a' <= s[0] <= 'z';
      forall i | 0 <= i < |s[1..]| ensures 'a' <= s[1..][i] <= 'z' {
        assert s[1..][i] == s[i + 1];
      }
      KeywordScan(depth, s[1..]);
    }
  }

  /** At every depth the text of a value is balanced, and trimming leaves it alone. */
  lemma {:induction false} WriteBalanced<N(!new)>(codec: Codec<N>, v: Json<N>, depth: nat)
    requires Numerals(codec)
    ensures Balanced(depth, Write(codec, v)) && Tight(Write(codec, v))
    decreases v
  {
    match v
    case JNull => KeywordBalanced(depth);
    case JBool(_) => KeywordBalanced(depth);
    case JNumber(n) =>
      NumeralBalanced(depth, codec.show(n));
      assert NumeralChar(codec.show(n)[0]) && NumeralChar(codec.show(n)[|codec.show(n)| - 1]);
    case JString(s) => QuoteBalanced(depth, s);
    case JArray(items) =>
      ItemsBalanced(codec, items, depth + 1);
      JoinBalanced(depth + 1, Items(codec, items));
      WriteArray(codec, items);
      BracketsBalanced(depth, '[', Join(Items(codec, items), ','), ']');
    case JObject(entries) =>
      PairsBalanced(codec, entries, depth + 1);
      JoinBalanced(depth + 1, Pairs(codec, entries));
      WriteObject(codec, entries);
      BracketsBalanced(depth, '{', Join(Pairs(codec, entries), ','), '}');
  }

  lemma {:induction false} ItemsBalanced<N(!new)>(codec: Codec<N>, items: seq<Json<N>>, depth: nat)
    requires Numerals(codec)
    ensures forall i :: 0 <= i < |items| ==> Balanced(depth, Items(codec, items)[i]) && Tight(Items(codec, items)[i])
    decreases items
  {
    forall i | 0 <= i < |items| ensures Balanced(depth, Items(codec, items)[i]) && Tight(Items(codec, items)[i]) {
      WriteBalanced(codec, items[i], depth);
    }
  }

  lemma {:induction false} PairsBalanced<N(!new)>(codec: Codec<N>, entries: seq<Entry<N>>, depth: nat)
    requires Numerals(codec)
    ensures forall i :: 0 <= i < |entries| ==> Balanced(depth, Pairs(codec, entries)[i]) && Tight(Pairs(codec, entries)[i])
    decreases entries
  {
    forall i | 0 <= i < |entries| ensures Balanced(depth, Pairs(codec, entries)[i]) && Tight(Pairs(codec, entries)[i]) {
      WriteBalanced(codec, entries[i].value, depth);
      PairBalanced(depth, entries[i].key, Write(codec, entries[i].value));
    }
  }

  lemma {:induction false} ColonSkips(scanner: Scanner, a: string, b: string)
    requires Colon(scanner, a) == None
    ensures Colon(scanner, a + b) == match Colon(Scan(scanner, a), b) case None => None case Some(k) => Some(k + |a|)
    decreases |a|
  {
    if a == [] {
      assert a + b == b;
    } else {
      assert (a + b)[0] == a[0] && (a + b)[1..] == a[1..] + b;
      ColonSkips(scanner.Advance(a[0]), a[1..], b);
      assert Scan(scanner, a) == Scan(scanner.Advance(a[0]), a[1..]);
    }
  }

  /** The colon of a pair is the one behind its key. */
  lemma ColonOfPair(key: string, value: string)
    ensures Colon(Outer(0), Pair(key, value)) == Some(|Quote(key)|)
  {
    var inside, tail := Scanner(0, true, false), "\"" + (":" + value);
    EscapeStaysInside(0, key);
    ColonSkips(inside, Escape(key), tail);
    assert tail[1..] == ":" + value;
    assert Colon(Outer(0), ":" + value) == Some(0);
    assert Colon(inside, tail) == Some(1);
    assert Pair(key, value)[1..] == Escape(key) + tail;
  }

  lemma ReadQuote(s: string)
    ensures var q := Quote(s); |q| >= 2 && q[0] == '"' && q[|q| - 1] == '"' && Unescape(q[1..|q| - 1]) == s
  {
    UnescapeEscape(s);
    assert Quote(s)[1..|Quote(s)| - 1] == Escape(s);
  }

  lemma ReadsPair<N>(codec: Codec<N>, key: string, value: string)
    requires Tight(value) && Tight(Pair(key, value)) && Tight(Quote(key))
    requires Colon(Outer(0), Pair(key, value)) == Some(|Quote(key)|)
    ensures ReadPair(codec, Pair(key, value)) == match Read(codec, value)
                                                 case None => None
                                                 case Some(v) => Some(Entry(key, v))
  {
    var pair := Pair(key, value);
    ReadQuote(key);
    assert pair[..|Quote(key)|] == Quote(key) && pair[|Quote(key)| + 1..] == value;
  }

  lemma ReadBackPair<N(!new)>(codec: Codec<N>, key: string, v: Json<N>)
    requires Numerals(codec) && Read(codec, Write(codec, v)) == Some(v)
    ensures ReadPair(codec, Pair(key, Write(codec, v))) == Some(Entry(key, v))
  {
    var value := Write(codec, v);
    WriteBalanced(codec, v, 0);
    PairBalanced(0, key, value);
    ColonOfPair(key, value);
    QuoteBalanced(0, key);
    ReadsPair(codec, key, value);
  }

  ghost predicate AllItemsReadBack<N(!new)>(codec: Codec<N>, items: seq<Json<N>>) {
    forall i :: 0 <= i < |items| ==> Read(codec, Write(codec, items[i])) == Some(items[i])
  }

  ghost predicate AllPairsReadBack<N(!new)>(codec: Codec<N>, entries: seq<Entry<N>>) {
    forall i :: 0 <= i < |entries| ==> Read(codec, Write(codec, entries[i].value)) == Some(entries[i].value)
  }

  /** Every well-formed value is read back from its canonical text. */
  lemma {:induction false} ReadWrite<N(!new)>(codec: Codec<N>, v: Json<N>)
    requires Numerals(codec) && WellFormed(v)
    ensures Read(codec, Write(codec, v)) == Some(v)
    decreases v
  {
    var text := Write(codec, v);
    WriteBalanced(codec, v, 0);
    match v
    case JNull =>
    case JBool(_) =>
    case JNumber(n) =>
      NotAKeyword(codec.show(n));
    case JString(s) =>
      ReadQuote(s);
    case JArray(items) =>
      forall i | 0 <= i < |items| ensures Read(codec, Write(codec, items[i])) == Some(items[i]) {
        ReadWrite(codec, items[i]);
      }
      ReadBackArray(codec, items);
    case JObject(entries) =>
      forall i | 0 <= i < |entries| ensures Read(codec, Write(codec, entries[i].value)) == Some(entries[i].value) {
        ReadWrite(codec, entries[i].value);
      }
      ReadBackObject(codec, entries);
  }

  lemma NotAKeyword(s: string)
    requires s != [] && forall i :: 0 <= i < |s| ==> NumeralChar(s[i])
    ensures s != "null" && s != "true" && s != "false"
  {
    assert NumeralChar(s[0]);
  }

  lemma ReadBackArray<N(!new)>(codec: Codec<N>, items: seq<Json<N>>)
    requires Numerals(codec)
    requires AllItemsReadBack(codec, items)
    ensures Read(codec, Write(codec, JArray(items))) == Some(JArray(items))
  {
    var inner := Join(Items(codec, items), ',');
    WriteArray(codec, items);
    if items != [] {
      ItemsBalanced(codec, items, 0);
      JoinTight(Items(codec, items));
      InnerArray(codec, items);
    }
    ReadsArray(codec, inner);
  }

  lemma InnerArray<N(!new)>(codec: Codec<N>, items: seq<Json<N>>)
    requires Numerals(codec) && AllItemsReadBack(codec, items) && items != []
    ensures ReadArrayInner(codec, Join(Items(codec, items), ',')) == Some(JArray(items))
  {
    var inner := Join(Items(codec, items), ',');
    ItemsBalanced(codec, items, 0);
    JoinTight(Items(codec, items));
    SplitJoin(Items(codec, items));
    assert forall i :: 0 <= i < |Items(codec, items)| ==> |Items(codec, items)[i]| <= |inner|;
    assert [] + items == items;
    ReadBackItems(codec, items, [], |inner|);
  }

  lemma ReadsArray<N(!new)>(codec: Codec<N>, inner: string)
    requires Numerals(codec) && (inner == [] || Tight(inner))
    ensures Read(codec, "[" + inner + "]") == ReadArrayInner(codec, inner)
  {
    var text := "[" + inner + "]";
    assert Opening(text[0]) && codec.read(text) == None;
    OpensArray(codec, text);
    StripsArray(codec, inner);
  }

  function ReadArrayInner<N>(codec: Codec<N>, inner: string): Option<Json<N>> {
    if inner == [] then Some(JArray([])) else ReadItems(codec, Split(Outer(0), [], inner, ','), [], |inner|)
  }

  lemma OpensArray<N>(codec: Codec<N>, text: string)
    requires Tight(text) && text[0] == '[' && codec.read(text) == None
    ensures Read(codec, text) == ReadArray(codec, text)
  {}

  lemma StripsArray<N>(codec: Codec<N>, inner: string)
    requires inner == [] || Tight(inner)
    ensures ReadArray(codec, "[" + inner + "]") == ReadArrayInner(codec, inner)
  {
    var text := "[" + inner + "]";
    assert Tight(text) && text[1..|text| - 1] == inner;
  }

  lemma {:induction false} ReadBackItems<N(!new)>(codec: Codec<N>, items: seq<Json<N>>, done: seq<Json<N>>, size: nat)
    requires Numerals(codec)
    requires AllItemsReadBack(codec, items)
    requires forall i :: 0 <= i < |items| ==> |Items(codec, items)[i]| <= size
    ensures ReadItems(codec, Items(codec, items), done, size) == Some(JArray(done + items))
    decreases |items|
  {
    if items == [] {
      assert done + items == done;
    } else {
      assert Items(codec, items)[1..] == Items(codec, items[1..]);
      WriteBalanced(codec, items[0], 0);
      assert Items(codec, items)[0] == Write(codec, items[0]);
      forall i | 0 <= i < |items[1..]| ensures |Items(codec, items[1..])[i]| <= size {
        assert Items(codec, items[1..])[i] == Items(codec, items)[i + 1];
      }
      ReadBackItems(codec, items[1..], done + [items[0]], size);
      assert (done + [items[0]]) + items[1..] == done + items;
    }
  }

  lemma ReadBackObject<N(!new)>(codec: Codec<N>, entries: seq<Entry<N>>)
    requires Numerals(codec) && SortedKeys(entries)
    requires AllPairsReadBack(codec, entries)
    ensures Read(codec, Write(codec, JObject(entries))) == Some(JObject(entries))
  {
    var inner := Join(Pairs(codec, entries), ',');
    WriteObject(codec, entries);
    if entries != [] {
      PairsBalanced(codec, entries, 0);
      JoinTight(Pairs(codec, entries));
      InnerObject(codec, entries);
    }
    ReadsObject(codec, inner);
  }

  lemma InnerObject<N(!new)>(codec: Codec<N>, entries: seq<Entry<N>>)
    requires Numerals(codec) && AllPairsReadBack(codec, entries) && entries != [] && SortedKeys(entries)
    ensures ReadObjectInner(codec, Join(Pairs(codec, entries), ',')) == Some(JObject(entries))
  {
    var inner := Join(Pairs(codec, entries), ',');
    PairsBalanced(codec, entries, 0);
    JoinTight(Pairs(codec, entries));
    SplitJoin(Pairs(codec, entries));
    assert forall i :: 0 <= i < |Pairs(codec, entries)| ==> |Pairs(codec, entries)[i]| <= |inner|;
    assert [] + entries == entries;
    ReadBackPairs(codec, [], entries, |inner|);
  }

  lemma ReadsObject<N(!new)>(codec: Codec<N>, inner: string)
    requires Numerals(codec) && (inner == [] || Tight(inner))
    ensures Read(codec, "{" + inner + "}") == ReadObjectInner(codec, inner)
  {
    var text := "{" + inner + "}";
    assert Opening(text[0]) && codec.read(text) == None;
    OpensObject(codec, text);
    StripsObject(codec, inner);
  }

  function ReadObjectInner<N>(codec: Codec<N>, inner: string): Option<Json<N>> {
    if inner == [] then Some(JObject([])) else ReadPairs(codec, Split(Outer(0), [], inner, ','), [], |inner|)
  }

  lemma OpensObject<N>(codec: Codec<N>, text: string)
    requires Tight(text) && text[0] == '{' && codec.read(text) == None
    ensures Read(codec, text) == ReadObject(codec, text)
  {}

  lemma StripsObject<N>(codec: Codec<N>, inner: string)
    requires inner == [] || Tight(inner)
    ensures ReadObject(codec, "{" + inner + "}") == ReadObjectInner(codec, inner)
  {
    var text := "{" + inner + "}";
    assert Tight(text) && text[1..|text| - 1] == inner;
  }

  lemma {:induction false} ReadBackPairs<N(!new)>(codec: Codec<N>, done: seq<Entry<N>>, entries: seq<Entry<N>>, size: nat)
    requires Numerals(codec) && SortedKeys(done + entries)
    requires AllPairsReadBack(codec, entries)
    requires forall i :: 0 <= i < |entries| ==> |Pairs(codec, entries)[i]| <= size
    ensures ReadPairs(codec, Pairs(codec, entries), done, size) == Some(JObject(done + entries))
    decreases |entries|
  {
    if entries == [] {
      assert done + entries == done;
    } else {
      var e := entries[0];
      PairsTail(codec, entries, size);
      ReadBackPair(codec, e.key, e.value);
      MoveOne(done, entries);
      InsertLast(done, e.key, e.value);
      assert AllPairsReadBack(codec, entries[1..]);
      ReadBackPairs(codec, done + [e], entries[1..], size);
    }
  }

  lemma PairsTail<N>(codec: Codec<N>, entries: seq<Entry<N>>, size: nat)
    requires entries != [] && forall i :: 0 <= i < |entries| ==> |Pairs(codec, entries)[i]| <= size
    ensures Pairs(codec, entries)[0] == Pair(entries[0].key, Write(codec, entries[0].value))
    ensures Pairs(codec, entries)[1..] == Pairs(codec, entries[1..])
    ensures forall i :: 0 <= i < |entries[1..]| ==> |Pairs(codec, entries[1..])[i]| <= size
  {
    forall i | 0 <= i < |entries[1..]| ensures |Pairs(codec, entries[1..])[i]| <= size {
      assert Pairs(codec, entries[1..])[i] == Pairs(codec, entries)[i + 1];
    }
  }

  lemma MoveOne<N>(done: seq<Entry<N>>, entries: seq<Entry<N>>)
    requires entries != [] && SortedKeys(done + entries)
    ensures (done + [entries[0]]) + entries[1..] == done + entries
    ensures SortedKeys(done + [entries[0]])
  {
    var moved := done + [entries[0]];
    forall i, j | 0 <= i < j < |moved| ensures KeyBefore(moved[i].key, moved[j].key) {
      assert moved[i] == (done + entries)[i] && moved[j] == (done + entries)[j];
    }
  }
}
