/** The texts the JSON reader of the dataflow compiler understands
  (crates/database/src/dataflow_compiler.rs, lines 1137-1296).

  A document says how a value is spelled: blanks around every token (section 2 of RFC 8259), escaped or
  plain characters, keys in any order and more than once. The reader is proved to read every such text as
  its value; the escapes \\b, \\f and \\u are not among those it knows. */
module JsonTexts {
  import opened Options
  import opened JsonReader

  // ----- Documents -----------------------------------------------------------------------------

  datatype TextChar = Plain(c: char) | Escaped(c: char)

  type Blank = string

  /** A value between blanks. */
  datatype Spaced<N> = Spaced(before: Blank, doc: Document<N>, after: Blank)

  datatype Member<N> = Member(before: Blank, key: seq<TextChar>, behind: Blank, value: Spaced<N>)

  /** `open` and `close` are the blanks inside the brackets. */
  datatype Document<N> =
    | NullDoc
    | BoolDoc(b: bool)
    | NumberDoc(numeral: string, n: N)
    | StringDoc(chars: seq<TextChar>)
    | ArrayDoc(open: Blank, items: seq<Spaced<N>>, close: Blank)
    | ObjectDoc(open: Blank, members: seq<Member<N>>, close: Blank)

  predicate IsBlank(s: string) { forall i :: 0 <= i < |s| ==> s[i] == ' ' || s[i] == '\t' || s[i] == '\n' || s[i] == '\r' }

  /** What an escaped character stands for. */
  function Meant(c: char): char {
    match c
    case 'n' => '\n'
    case 'r' => '\r'
    case 't' => '\t'
    case _ => c
  }

  predicate Escapable(c: char) { c == '"' || c == '\\' || c == '/' || c == 'n' || c == 'r' || c == 't' }

  predicate GoodChar(t: TextChar) {
    match t
    case Plain(c) => c != '"' && c != '\\'
    case Escaped(c) => Escapable(c)
  }

  predicate GoodChars(chars: seq<TextChar>) { forall i :: 0 <= i < |chars| ==> GoodChar(chars[i]) }

  /** Numerals are read as their numbers, blanks are blank, and the blanks at the ends of a list are those of its
      brackets. */
  ghost predicate Good<N>(codec: Codec<N>, doc: Document<N>) {
    match doc
    case NullDoc => true
    case BoolDoc(_) => true
    case NumberDoc(numeral, n) =>
      numeral != [] && (forall i :: 0 <= i < |numeral| ==> NumeralChar(numeral[i])) && codec.read(numeral) == Some(n)
    case StringDoc(chars) => GoodChars(chars)
    case ArrayDoc(open, items, close) =>
      && IsBlank(open) && IsBlank(close)
      && (forall i :: 0 <= i < |items| ==> IsBlank(items[i].before) && IsBlank(items[i].after) && Good(codec, items[i].doc))
      && (items != [] ==> items[0].before == "" && items[|items| - 1].after == "")
    case ObjectDoc(open, members, close) =>
      && IsBlank(open) && IsBlank(close)
      && (forall i :: 0 <= i < |members| ==> GoodMember(codec, members[i]))
      && (members != [] ==> members[0].before == "" && members[|members| - 1].value.after == "")
  }

  ghost predicate GoodMember<N>(codec: Codec<N>, m: Member<N>) {
    && IsBlank(m.before) && GoodChars(m.key) && IsBlank(m.behind)
    && IsBlank(m.value.before) && IsBlank(m.value.after) && Good(codec, m.value.doc)
  }

  // ----- Their texts ---------------------------------------------------------------------------

  function CharText(t: TextChar): string {
    match t
    case Plain(c) => [c]
    case Escaped(c) => ['\\', c]
  }

  function CharsText(chars: seq<TextChar>): string {
    if chars == [] then "" else CharText(chars[0]) + CharsText(chars[1..])
  }

  function Quoted(chars: seq<TextChar>): string { "\"" + CharsText(chars) + "\"" }

  function Text<N>(doc: Document<N>): string {
    match doc
    case NullDoc => "null"
    case BoolDoc(b) => if b then "true" else "false"
    case NumberDoc(numeral, _) => numeral
    case StringDoc(chars) => Quoted(chars)
    case ArrayDoc(open, items, close) =>
      "[" + open + Join(seq(|items|, i requires 0 <= i < |items| => items[i].before + Text(items[i].doc) + items[i].after), ',') + close + "]"
    case ObjectDoc(open, members, close) =>
      "{" + open + Join(seq(|members|, i requires 0 <= i < |members| => MemberText(members[i])), ',') + close + "}"
  }

  function MemberText<N>(m: Member<N>): string {
    m.before + Quoted(m.key) + m.behind + ":" + m.value.before + Text(m.value.doc) + m.value.after
  }

  function ItemTexts<N>(items: seq<Spaced<N>>): seq<string> {
    seq(|items|, i requires 0 <= i < |items| => items[i].before + Text(items[i].doc) + items[i].after)
  }

  function MemberTexts<N>(members: seq<Member<N>>): seq<string> {
    seq(|members|, i requires 0 <= i < |members| => MemberText(members[i]))
  }

  // ----- Their values --------------------------------------------------------------------------

  function CharsValue(chars: seq<TextChar>): string {
    if chars == [] then ""
    else [match chars[0] case Plain(c) => c case Escaped(c) => Meant(c)] + CharsValue(chars[1..])
  }

  function Value<N>(doc: Document<N>): Json<N> {
    match doc
    case NullDoc => JNull
    case BoolDoc(b) => JBool(b)
    case NumberDoc(_, n) => JNumber(n)
    case StringDoc(chars) => JString(CharsValue(chars))
    case ArrayDoc(_, items, _) => JArray(seq(|items|, i requires 0 <= i < |items| => Value(items[i].doc)))
    case ObjectDoc(_, members, _) =>
      JObject(Collected([], seq(|members|, i requires 0 <= i < |members| =>
        Entry(CharsValue(members[i].key), Value(members[i].value.doc)))))
  }

  /** The entries set one after the other. */
  function Collected<N>(entries: seq<Entry<N>>, next: seq<Entry<N>>): seq<Entry<N>>
    decreases |next|
  {
    if next == [] then entries else Collected(Insert(entries, next[0].key, next[0].value), next[1..])
  }

  /** The value of the last entry of a key. */
  function LastOf<N>(entries: seq<Entry<N>>, key: string): Option<Json<N>> {
    if entries == [] then None
    else
      var last := entries[|entries| - 1];
      if last.key == key then Some(last.value) else LastOf(entries[..|entries| - 1], key)
  }

  /** An object holds its keys in ascending order, each with the value it was given last. */
  lemma {:induction false} CollectedHolds<N>(next: seq<Entry<N>>, key: string)
    ensures SortedKeys(Collected([], next)) && Lookup(Collected([], next), key) == LastOf(next, key)
  {
    if next != [] {
      var front, last := next[..|next| - 1], next[|next| - 1];
      CollectedHolds(front, key);
      CollectedLast([], next);
      InsertSets(Collected([], front), last.key, last.value, key);
      InsertKeepsSorted(Collected([], front), last.key, last.value);
    }
  }

  lemma {:induction false} CollectedLast<N>(entries: seq<Entry<N>>, next: seq<Entry<N>>)
    requires next != []
    ensures var front, last := next[..|next| - 1], next[|next| - 1];
      Collected(entries, next) == Insert(Collected(entries, front), last.key, last.value)
    decreases |next|
  {
    if |next| == 1 {
      assert next[1..] == [] && next[..0] == [];
    } else {
      CollectedLast(Insert(entries, next[0].key, next[0].value), next[1..]);
      assert next[..|next| - 1][1..] == next[1..][..|next| - 2] && next[1..][|next| - 2] == next[|next| - 1];
    }
  }

  // ----- Blanks --------------------------------------------------------------------------------

  lemma {:induction false} BlankBalanced(depth: int, s: string)
    requires IsBlank(s)
    ensures Balanced(depth, s) && Colon(Outer(depth), s) == None
    decreases |s|
  {
    if s != [] {
      forall i | 0 <= i < |s[1..]| ensures s[1..][i] == s[i + 1] {}
      BlankBalanced(depth, s[1..]);
    }
  }

  lemma {:induction false} TrimBefore(blank: string, s: string)
    requires IsBlank(blank) && (s == [] || !IsSpace(s[0]))
    ensures TrimStart(blank + s) == s
    decreases |blank|
  {
    if blank == [] {
      assert blank + s == s;
    } else {
      assert (blank + s)[0] == blank[0] && (blank + s)[1..] == blank[1..] + s;
      forall i | 0 <= i < |blank[1..]| ensures blank[1..][i] == blank[i + 1] {}
      TrimBefore(blank[1..], s);
    }
  }

  lemma {:induction false} TrimBehind(s: string, blank: string)
    requires IsBlank(blank) && (s == [] || !IsSpace(s[|s| - 1]))
    ensures TrimEnd(s + blank) == s
    decreases |blank|
  {
    if blank == [] {
      assert s + blank == s;
    } else {
      var less := blank[..|blank| - 1];
      assert (s + blank)[..|s + blank| - 1] == s + less && (s + blank)[|s + blank| - 1] == blank[|blank| - 1];
      TrimBehind(s, less);
    }
  }

  /** Trimming takes the blanks away and nothing else. */
  lemma TrimSpaced(before: string, s: string, after: string)
    requires IsBlank(before) && IsBlank(after) && (s == [] || Tight(s))
    ensures Trim(before + s + after) == s
  {
    if s == [] {
      BlankConcat(before, after);
      TrimBlank(before + s + after);
    } else {
      assert before + s + after == before + (s + after);
      assert (s + after)[0] == s[0];
      TrimBefore(before, s + after);
      TrimBehind(s, after);
    }
  }

  lemma BlankConcat(a: string, b: string)
    requires IsBlank(a) && IsBlank(b)
    ensures IsBlank(a + [] + b)
  {}

  lemma TrimBlank(s: string)
    requires IsBlank(s)
    ensures Trim(s) == []
  {
    TrimBefore(s, []);
    assert s + [] == s;
  }

  // ----- Strings -------------------------------------------------------------------------------

  lemma GoodRest(chars: seq<TextChar>)
    requires GoodChars(chars) && chars != []
    ensures GoodChar(chars[0]) && GoodChars(chars[1..])
  {}

  lemma {:induction false} CharsStayInside(depth: int, chars: seq<TextChar>)
    requires GoodChars(chars)
    ensures var inside := Scanner(depth, true, false);
      && Scan(inside, CharsText(chars)) == inside
      && Quiet(inside, CharsText(chars), ',') && Colon(inside, CharsText(chars)) == None
  {
    if chars != [] {
      GoodRest(chars);
      CharsStayInside(depth, chars[1..]);
      var text := CharsText(chars);
      if chars[0].Escaped? {
        assert text[1..][1..] == CharsText(chars[1..]);
      } else {
        assert text[1..] == CharsText(chars[1..]);
      }
    }
  }

  lemma {:induction false} UnescapeChars(chars: seq<TextChar>)
    requires GoodChars(chars)
    ensures Unescape(CharsText(chars)) == CharsValue(chars)
  {
    if chars != [] {
      GoodRest(chars);
      UnescapeChars(chars[1..]);
      var text := CharsText(chars);
      if chars[0].Escaped? {
        assert text[2..] == CharsText(chars[1..]);
      } else {
        assert text[1..] == CharsText(chars[1..]);
      }
    }
  }

  lemma QuotedBalanced(depth: int, chars: seq<TextChar>)
    requires GoodChars(chars)
    ensures Balanced(depth, Quoted(chars)) && Tight(Quoted(chars)) && Colon(Outer(depth), Quoted(chars)) == None
  {
    var inside := Scanner(depth, true, false);
    CharsStayInside(depth, chars);
    ScanConcat(inside, CharsText(chars), "\"");
    ColonSkips(inside, CharsText(chars), "\"");
    assert "\""[1..] == "";
    assert Scan(inside, "\"") == Outer(depth) && Quiet(inside, "\"", ',') && Colon(inside, "\"") == None;
    assert Quoted(chars)[1..] == CharsText(chars) + "\"";
  }

  lemma QuotedRead(chars: seq<TextChar>)
    requires GoodChars(chars)
    ensures Unquoted(Quoted(chars)) == Some(CharsValue(chars))
  {
    UnescapeChars(chars);
    assert Quoted(chars)[1..|Quoted(chars)| - 1] == CharsText(chars);
  }

  // ----- Every text is balanced ----------------------------------------------------------------

  lemma BalancedConcat(depth: int, a: string, b: string)
    requires Balanced(depth, a) && Balanced(depth, b)
    ensures Balanced(depth, a + b)
  {
    ScanConcat(Outer(depth), a, b);
  }

  lemma SpacedBalanced(depth: int, before: string, s: string, after: string)
    requires IsBlank(before) && IsBlank(after) && Balanced(depth, s)
    ensures Balanced(depth, before + s + after)
  {
    BlankBalanced(depth, before);
    BlankBalanced(depth, after);
    BalancedConcat(depth, before, s);
    BalancedConcat(depth, before + s, after);
  }

  lemma {:induction false} TextBalanced<N(!new)>(codec: Codec<N>, doc: Document<N>, depth: nat)
    requires Good(codec, doc)
    ensures Balanced(depth, Text(doc)) && Tight(Text(doc))
    decreases doc
  {
    match doc
    case NullDoc => KeywordBalanced(depth);
    case BoolDoc(_) => KeywordBalanced(depth);
    case NumberDoc(numeral, _) =>
      NumeralBalanced(depth, numeral);
      assert NumeralChar(numeral[0]) && NumeralChar(numeral[|numeral| - 1]);
    case StringDoc(chars) => QuotedBalanced(depth, chars);
    case ArrayDoc(open, items, close) =>
      ItemsBalanced(codec, items, depth + 1);
      JoinBalanced(depth + 1, ItemTexts(items));
      var list := Join(ItemTexts(items), ',');
      SpacedBalanced(depth + 1, open, list, close);
      BracketsBalanced(depth, '[', open + list + close, ']');
      ArrayText(doc, open + list + close);
    case ObjectDoc(open, members, close) =>
      MembersBalanced(codec, members, depth + 1);
      JoinBalanced(depth + 1, MemberTexts(members));
      var list := Join(MemberTexts(members), ',');
      SpacedBalanced(depth + 1, open, list, close);
      BracketsBalanced(depth, '{', open + list + close, '}');
      ObjectText(doc, open + list + close);
  }

  lemma ArrayText<N>(doc: Document<N>, inside: string)
    requires doc.ArrayDoc? && inside == doc.open + Join(ItemTexts(doc.items), ',') + doc.close
    ensures Text(doc) == ['['] + inside + [']']
  {
    assert ItemTexts(doc.items)
        == seq(|doc.items|, i requires 0 <= i < |doc.items| => doc.items[i].before + Text(doc.items[i].doc) + doc.items[i].after);
    Regroup("[", doc.open, Join(ItemTexts(doc.items), ','), doc.close, "]");
  }

  lemma ObjectText<N>(doc: Document<N>, inside: string)
    requires doc.ObjectDoc? && inside == doc.open + Join(MemberTexts(doc.members), ',') + doc.close
    ensures Text(doc) == ['{'] + inside + ['}']
  {
    assert MemberTexts(doc.members) == seq(|doc.members|, i requires 0 <= i < |doc.members| => MemberText(doc.members[i]));
    Regroup("{", doc.open, Join(MemberTexts(doc.members), ','), doc.close, "}");
  }

  lemma Regroup(a: string, b: string, c: string, d: string, e: string)
    ensures a + b + c + d + e == a + (b + c + d) + e
  {}

  lemma {:induction false} ItemsBalanced<N(!new)>(codec: Codec<N>, items: seq<Spaced<N>>, depth: nat)
    requires forall i :: 0 <= i < |items| ==> IsBlank(items[i].before) && IsBlank(items[i].after) && Good(codec, items[i].doc)
    ensures forall i :: 0 <= i < |items| ==> Balanced(depth, ItemTexts(items)[i])
    decreases items
  {
    forall i | 0 <= i < |items| ensures Balanced(depth, ItemTexts(items)[i]) {
      TextBalanced(codec, items[i].doc, depth);
      SpacedBalanced(depth, items[i].before, Text(items[i].doc), items[i].after);
    }
  }

  lemma {:induction false} MembersBalanced<N(!new)>(codec: Codec<N>, members: seq<Member<N>>, depth: nat)
    requires forall i :: 0 <= i < |members| ==> GoodMember(codec, members[i])
    ensures forall i :: 0 <= i < |members| ==> Balanced(depth, MemberTexts(members)[i])
    decreases members
  {
    forall i | 0 <= i < |members| ensures Balanced(depth, MemberTexts(members)[i]) {
      TextBalanced(codec, members[i].value.doc, depth);
      MemberBalanced(codec, members[i], depth);
    }
  }

  lemma MemberBalanced<N(!new)>(codec: Codec<N>, m: Member<N>, depth: nat)
    requires GoodMember(codec, m) && Balanced(depth, Text(m.value.doc))
    ensures Balanced(depth, MemberText(m))
  {
    var key, value := m.before + Quoted(m.key) + m.behind, m.value.before + Text(m.value.doc) + m.value.after;
    hide GoodChars, IsBlank;
    QuotedBalanced(depth, m.key);
    SpacedBalanced(depth, m.before, Quoted(m.key), m.behind);
    SpacedBalanced(depth, m.value.before, Text(m.value.doc), m.value.after);
    ColonBalanced(depth);
    BalancedConcat(depth, key, ":");
    BalancedConcat(depth, key + ":", value);
    assert MemberText(m) == key + ":" + value;
  }

  lemma ColonBalanced(depth: int)
    ensures Balanced(depth, ":")
  {
    assert ":"[1..] == "";
  }

  // ----- Reading -------------------------------------------------------------------------------

  /** Main result: a text is read as the value of its document. */
  lemma {:induction false} ReadsEveryText<N(!new)>(codec: Codec<N>, doc: Document<N>)
    requires Numerals(codec) && Good(codec, doc)
    ensures Read(codec, Text(doc)) == Some(Value(doc))
    decreases doc
  {
    TextBalanced(codec, doc, 0);
    match doc
    case NullDoc =>
    case BoolDoc(_) =>
    case NumberDoc(numeral, _) => NotAKeyword(numeral);
    case StringDoc(chars) => QuotedRead(chars);
    case ArrayDoc(_, items, _) =>
      forall i | 0 <= i < |items| ensures Read(codec, Text(items[i].doc)) == Some(Value(items[i].doc)) {
        ReadsEveryText(codec, items[i].doc);
      }
      ReadsArrayDoc(codec, doc);
    case ObjectDoc(_, members, _) =>
      forall i | 0 <= i < |members| ensures Read(codec, Text(members[i].value.doc)) == Some(Value(members[i].value.doc)) {
        ReadsEveryText(codec, members[i].value.doc);
      }
      ReadsObjectDoc(codec, doc);
  }

  /** The same between blanks. */
  lemma ReadsSpaced<N(!new)>(codec: Codec<N>, s: Spaced<N>)
    requires Numerals(codec) && Good(codec, s.doc) && IsBlank(s.before) && IsBlank(s.after)
    ensures Read(codec, s.before + Text(s.doc) + s.after) == Some(Value(s.doc))
  {
    ReadsEveryText(codec, s.doc);
    TextBalanced(codec, s.doc, 0);
    TrimSpaced(s.before, Text(s.doc), s.after);
    SameTrimmed(codec, Text(s.doc), s.before + Text(s.doc) + s.after);
  }

  lemma SameTrimmed<N>(codec: Codec<N>, a: string, b: string)
    requires Trim(a) == Trim(b)
    ensures Read(codec, a) == Read(codec, b)
  {}

  ghost predicate ReadsItem<N>(codec: Codec<N>, s: Spaced<N>) {
    && Good(codec, s.doc) && IsBlank(s.before) && IsBlank(s.after) && Tight(Text(s.doc))
    && Read(codec, Text(s.doc)) == Some(Value(s.doc))
  }

  function ItemValues<N>(items: seq<Spaced<N>>): seq<Json<N>> {
    seq(|items|, i requires 0 <= i < |items| => Value(items[i].doc))
  }

  lemma ReadsArrayDoc<N(!new)>(codec: Codec<N>, doc: Document<N>)
    requires Numerals(codec) && Good(codec, doc) && doc.ArrayDoc?
    requires forall i :: 0 <= i < |doc.items| ==> Read(codec, Text(doc.items[i].doc)) == Some(Value(doc.items[i].doc))
    ensures Read(codec, Text(doc)) == Some(Value(doc))
  {
    var items, list := doc.items, Join(ItemTexts(doc.items), ',');
    forall i | 0 <= i < |items| ensures ReadsItem(codec, items[i]) {
      TextBalanced(codec, items[i].doc, 0);
    }
    ArrayText(doc, doc.open + list + doc.close);
    assert Value(doc) == JArray(ItemValues(items)) by {
      assert ItemValues(items) == seq(|items|, i requires 0 <= i < |items| => Value(doc.items[i].doc));
    }
    TextBalanced(codec, doc, 0);
    ItemsTight(codec, items);
    ItemsRead(codec, items);
    hide Text, ItemTexts, Value, ItemValues, ReadsItem, Good;
    TrimSpaced(doc.open, list, doc.close);
    SpacedArray(codec, Text(doc), doc.open + list + doc.close, list);
  }

  lemma SpacedArray<N(!new)>(codec: Codec<N>, text: string, inside: string, list: string)
    requires Numerals(codec) && Tight(text) && text == ['['] + inside + [']'] && Trim(inside) == list
    ensures Read(codec, text) == ReadArrayInner(codec, list)
  {
    assert Opening(text[0]) && codec.read(text) == None;
    OpensArray(codec, text);
    assert text[1..|text| - 1] == inside;
  }

  lemma ItemsTight<N>(codec: Codec<N>, items: seq<Spaced<N>>)
    requires forall i :: 0 <= i < |items| ==> ReadsItem(codec, items[i])
    requires items != [] ==> items[0].before == "" && items[|items| - 1].after == ""
    ensures items == [] || Tight(Join(ItemTexts(items), ','))
    ensures items == [] ==> Join(ItemTexts(items), ',') == []
  {
    hide *;
    TextsOfNothing(items);
    if items != [] {
      var n := |items| - 1;
      ItemText(codec, items, 0);
      ItemText(codec, items, n);
      StartsTight(Text(items[0].doc), items[0].after, ItemTexts(items)[0]);
      EndsTight(items[n].before, Text(items[n].doc), ItemTexts(items)[n]);
      JoinEnds(ItemTexts(items));
    }
  }

  lemma TextsOfNothing<N>(items: seq<Spaced<N>>)
    ensures |ItemTexts(items)| == |items| && (items == [] ==> Join(ItemTexts(items), ',') == [])
  {}

  lemma ItemText<N>(codec: Codec<N>, items: seq<Spaced<N>>, i: nat)
    requires i < |items| && forall k :: 0 <= k < |items| ==> ReadsItem(codec, items[k])
    ensures ItemTexts(items)[i] == items[i].before + Text(items[i].doc) + items[i].after
    ensures items[i].before == "" ==> ItemTexts(items)[i] == Text(items[i].doc) + items[i].after
    ensures items[i].after == "" ==> ItemTexts(items)[i] == items[i].before + Text(items[i].doc)
    ensures Tight(Text(items[i].doc)) && IsBlank(items[i].before) && IsBlank(items[i].after)
    ensures Read(codec, Text(items[i].doc)) == Some(Value(items[i].doc))
  {
    hide Text, Read, Value, IsBlank, Tight;
    assert ReadsItem(codec, items[i]);
  }

  lemma StartsTight(core: string, behind: string, s: string)
    requires Tight(core) && s == core + behind
    ensures s != [] && !IsSpace(s[0])
  {}

  lemma EndsTight(before: string, core: string, s: string)
    requires Tight(core) && s == before + core
    ensures s != [] && !IsSpace(s[|s| - 1])
  {
    assert s[|s| - 1] == core[|core| - 1];
  }

  lemma JoinEnds(pieces: seq<string>)
    requires pieces != [] && pieces[0] != [] && !IsSpace(pieces[0][0])
    requires var last := pieces[|pieces| - 1]; last != [] && !IsSpace(last[|last| - 1])
    ensures Tight(Join(pieces, ','))
  {
    JoinLast(pieces);
    hide IsSpace;
  }

  lemma {:induction false} JoinLast(pieces: seq<string>)
    requires pieces != [] && pieces[|pieces| - 1] != []
    ensures var s := Join(pieces, ','); s != [] && s[|s| - 1] == pieces[|pieces| - 1][|pieces[|pieces| - 1]| - 1]
  {
    if |pieces| > 1 {
      JoinLast(pieces[1..]);
    }
  }

  lemma ItemsRead<N(!new)>(codec: Codec<N>, items: seq<Spaced<N>>)
    requires forall i :: 0 <= i < |items| ==> ReadsItem(codec, items[i])
    requires items != [] ==> items[0].before == "" && items[|items| - 1].after == ""
    ensures ReadArrayInner(codec, Join(ItemTexts(items), ',')) == Some(JArray(ItemValues(items)))
  {
    ItemsTight(codec, items);
    if items == [] {
      assert ItemValues(items) == [];
    } else {
      ItemsBalanced(codec, items, 0);
      SplitJoin(ItemTexts(items));
      var inner := Join(ItemTexts(items), ',');
      assert forall i :: 0 <= i < |ItemTexts(items)| ==> |ItemTexts(items)[i]| <= |inner|;
      ItemsReadBack(codec, items, [], |inner|);
      assert [] + ItemValues(items) == ItemValues(items);
    }
  }

  lemma {:induction false} ItemsReadBack<N(!new)>(codec: Codec<N>, items: seq<Spaced<N>>, done: seq<Json<N>>, size: nat)
    requires forall i :: 0 <= i < |items| ==> ReadsItem(codec, items[i])
    requires forall i :: 0 <= i < |items| ==> |ItemTexts(items)[i]| <= size
    ensures ReadItems(codec, ItemTexts(items), done, size) == Some(JArray(done + ItemValues(items)))
    decreases |items|
  {
    hide *;
    if items == [] {
      NoItems(codec, done, size);
    } else {
      var first, rest := items[0], items[1..];
      ItemText(codec, items, 0);
      FirstItem(items);
      TrimSpaced(first.before, Text(first.doc), first.after);
      assert forall i :: 0 <= i < |rest| ==> rest[i] == items[i + 1];
      assert forall i :: 0 <= i < |rest| ==> ItemTexts(rest)[i] == ItemTexts(items)[i + 1];
      ItemsReadBack(codec, rest, done + [Value(first.doc)], size);
      ReadsFirst(codec, ItemTexts(items), done, Value(first.doc), size);
      assert (done + [Value(first.doc)]) + ItemValues(rest) == done + ([Value(first.doc)] + ItemValues(rest));
    }
  }

  lemma NoItems<N>(codec: Codec<N>, done: seq<Json<N>>, size: nat)
    ensures ReadItems(codec, ItemTexts<N>([]), done, size) == Some(JArray(done + ItemValues<N>([])))
  {
    assert done + ItemValues<N>([]) == done;
  }

  lemma FirstItem<N>(items: seq<Spaced<N>>)
    requires items != []
    ensures |ItemTexts(items)| == |items| && ItemTexts(items)[1..] == ItemTexts(items[1..])
    ensures ItemValues(items) == [Value(items[0].doc)] + ItemValues(items[1..])
  {
    hide Text, Value;
  }

  lemma ReadsFirst<N>(codec: Codec<N>, parts: seq<string>, done: seq<Json<N>>, v: Json<N>, size: nat)
    requires parts != [] && (forall i :: 0 <= i < |parts| ==> |parts[i]| <= size)
    requires Read(codec, Trim(parts[0])) == Some(v)
    ensures ReadItems(codec, parts, done, size) == ReadItems(codec, parts[1..], done + [v], size)
  {
    hide Read, Trim;
  }

  // ----- Members -------------------------------------------------------------------------------

  ghost predicate ReadsMember<N>(codec: Codec<N>, m: Member<N>) {
    GoodMember(codec, m) && Tight(Text(m.value.doc)) && Read(codec, Text(m.value.doc)) == Some(Value(m.value.doc))
  }

  function EntryOf<N>(m: Member<N>): Entry<N> {
    Entry(CharsValue(m.key), Value(m.value.doc))
  }

  function Entries<N>(members: seq<Member<N>>): seq<Entry<N>> {
    seq(|members|, i requires 0 <= i < |members| => EntryOf(members[i]))
  }

  /** The member without its outer blanks. */
  function Stripped<N>(m: Member<N>): string {
    Quoted(m.key) + m.behind + ":" + (m.value.before + Text(m.value.doc))
  }

  lemma MemberParts<N>(m: Member<N>)
    ensures MemberText(m) == m.before + Stripped(m) + m.value.after
  {}

  lemma StrippedTight<N>(codec: Codec<N>, m: Member<N>)
    requires ReadsMember(codec, m)
    ensures Tight(Stripped(m))
  {
    var s, value := Stripped(m), Text(m.value.doc);
    assert s[0] == '"' && s[|s| - 1] == value[|value| - 1];
  }

  lemma ReadsOneMember<N(!new)>(codec: Codec<N>, m: Member<N>)
    requires ReadsMember(codec, m)
    ensures ReadPair(codec, MemberText(m)) == Some(EntryOf(m))
  {
    hide *;
    MemberFacts(codec, m);
    StrippedTight(codec, m);
    MemberParts(m);
    TrimSpaced(m.before, Stripped(m), m.value.after);
    var key, value := Quoted(m.key) + m.behind, m.value.before + Text(m.value.doc);
    QuotedBalanced(0, m.key);
    QuotedRead(m.key);
    KeyTrimmed(m.behind, Quoted(m.key));
    ValueTrimmed(m.value.before, Text(m.value.doc));
    ColonBehind(Quoted(m.key), m.behind, value);
    SplitPair(codec, MemberText(m), Stripped(m), key, value, Quoted(m.key), Text(m.value.doc));
  }

  lemma MemberFacts<N>(codec: Codec<N>, m: Member<N>)
    requires ReadsMember(codec, m)
    ensures GoodChars(m.key) && IsBlank(m.before) && IsBlank(m.behind) && IsBlank(m.value.before) && IsBlank(m.value.after)
    ensures Tight(Text(m.value.doc)) && Read(codec, Text(m.value.doc)) == Some(Value(m.value.doc))
    ensures EntryOf(m) == Entry(CharsValue(m.key), Value(m.value.doc))
    ensures Stripped(m) == Quoted(m.key) + m.behind + (":" + (m.value.before + Text(m.value.doc)))
  {
    var key, value := Quoted(m.key) + m.behind, m.value.before + Text(m.value.doc);
    assert key + ":" + value == key + (":" + value);
  }

  /** The colon of a member is the one behind its key and the blanks that follow. */
  lemma ColonBehind(quoted: string, blank: string, value: string)
    requires Balanced(0, quoted) && Colon(Outer(0), quoted) == None && IsBlank(blank)
    ensures Colon(Outer(0), quoted + blank + (":" + value)) == Some(|quoted + blank|)
  {
    BlankBalanced(0, blank);
    ColonSkips(Outer(0), quoted, blank);
    BalancedConcat(0, quoted, blank);
    ColonSkips(Outer(0), quoted + blank, ":" + value);
    assert Colon(Outer(0), ":" + value) == Some(0);
  }

  lemma KeyTrimmed(blank: string, key: string)
    requires IsBlank(blank) && Tight(key)
    ensures Trim(key + blank) == key
  {
    TrimSpaced("", key, blank);
    assert "" + key + blank == key + blank;
  }

  lemma ValueTrimmed(blank: string, value: string)
    requires IsBlank(blank) && Tight(value)
    ensures Trim(blank + value) == value
  {
    TrimSpaced(blank, value, "");
    assert blank + value + "" == blank + value;
  }

  lemma SplitPair<N>(codec: Codec<N>, part: string, pair: string, key: string, value: string, quoted: string, text: string)
    requires pair == key + (":" + value) && Colon(Outer(0), pair) == Some(|key|)
    requires Trim(key) == quoted && Trim(value) == text && Unquoted(quoted).Some? && Trim(part) == pair
    ensures ReadPair(codec, part) == match Read(codec, text) case None => None case Some(v) => Some(Entry(Unquoted(quoted).value, v))
  {
    hide Read, Trim, Unquoted, Colon;
    assert pair[..|key|] == key && pair[|key| + 1..] == value;
  }

  lemma ReadsObjectDoc<N(!new)>(codec: Codec<N>, doc: Document<N>)
    requires Numerals(codec) && Good(codec, doc) && doc.ObjectDoc?
    requires forall i :: 0 <= i < |doc.members| ==>
               Read(codec, Text(doc.members[i].value.doc)) == Some(Value(doc.members[i].value.doc))
    ensures Read(codec, Text(doc)) == Some(Value(doc))
  {
    var members, list := doc.members, Join(MemberTexts(doc.members), ',');
    forall i | 0 <= i < |members| ensures ReadsMember(codec, members[i]) {
      TextBalanced(codec, members[i].value.doc, 0);
    }
    ObjectText(doc, doc.open + list + doc.close);
    assert Value(doc) == JObject(Collected([], Entries(members))) by {
      assert Entries(members) == seq(|members|, i requires 0 <= i < |members| =>
        Entry(CharsValue(doc.members[i].key), Value(doc.members[i].value.doc)));
    }
    TextBalanced(codec, doc, 0);
    MembersTight(codec, members);
    MembersRead(codec, members);
    hide Text, MemberTexts, Value, Entries, ReadsMember, Good;
    TrimSpaced(doc.open, list, doc.close);
    SpacedObject(codec, Text(doc), doc.open + list + doc.close, list);
  }

  lemma SpacedObject<N(!new)>(codec: Codec<N>, text: string, inside: string, list: string)
    requires Numerals(codec) && Tight(text) && text == ['{'] + inside + ['}'] && Trim(inside) == list
    ensures Read(codec, text) == ReadObjectInner(codec, list)
  {
    assert Opening(text[0]) && codec.read(text) == None;
    OpensObject(codec, text);
    assert text[1..|text| - 1] == inside;
  }

  lemma MembersTight<N>(codec: Codec<N>, members: seq<Member<N>>)
    requires forall i :: 0 <= i < |members| ==> ReadsMember(codec, members[i])
    requires members != [] ==> members[0].before == "" && members[|members| - 1].value.after == ""
    ensures members == [] || Tight(Join(MemberTexts(members), ','))
    ensures members == [] ==> Join(MemberTexts(members), ',') == []
  {
    hide *;
    MemberCount(members);
    if members != [] {
      var n := |members| - 1;
      MemberEnds(codec, members, 0);
      MemberEnds(codec, members, n);
      StartsTight(Stripped(members[0]), members[0].value.after, MemberTexts(members)[0]);
      EndsTight(members[n].before, Stripped(members[n]), MemberTexts(members)[n]);
      JoinEnds(MemberTexts(members));
    }
  }

  lemma MemberCount<N>(members: seq<Member<N>>)
    ensures |MemberTexts(members)| == |members| && (members == [] ==> Join(MemberTexts(members), ',') == [])
  {}

  lemma MemberEnds<N>(codec: Codec<N>, members: seq<Member<N>>, i: nat)
    requires i < |members| && forall k :: 0 <= k < |members| ==> ReadsMember(codec, members[k])
    ensures Tight(Stripped(members[i]))
    ensures MemberTexts(members)[i] == MemberText(members[i])
    ensures members[i].before == "" ==> MemberTexts(members)[i] == Stripped(members[i]) + members[i].value.after
    ensures members[i].value.after == "" ==> MemberTexts(members)[i] == members[i].before + Stripped(members[i])
  {
    StrippedTight(codec, members[i]);
    MemberParts(members[i]);
    hide Stripped, MemberText, Tight;
  }

  lemma MembersRead<N(!new)>(codec: Codec<N>, members: seq<Member<N>>)
    requires forall i :: 0 <= i < |members| ==> ReadsMember(codec, members[i])
    requires members != [] ==> members[0].before == "" && members[|members| - 1].value.after == ""
    ensures ReadObjectInner(codec, Join(MemberTexts(members), ',')) == Some(JObject(Collected([], Entries(members))))
  {
    MembersTight(codec, members);
    if members != [] {
      MembersBalanced(codec, members, 0);
      SplitJoin(MemberTexts(members));
      var inner := Join(MemberTexts(members), ',');
      assert forall i :: 0 <= i < |MemberTexts(members)| ==> |MemberTexts(members)[i]| <= |inner|;
      MembersReadBack(codec, members, [], |inner|);
    }
  }

  lemma {:induction false} MembersReadBack<N(!new)>(codec: Codec<N>, members: seq<Member<N>>, done: seq<Entry<N>>, size: nat)
    requires forall i :: 0 <= i < |members| ==> ReadsMember(codec, members[i])
    requires forall i :: 0 <= i < |members| ==> |MemberTexts(members)[i]| <= size
    ensures ReadPairs(codec, MemberTexts(members), done, size) == Some(JObject(Collected(done, Entries(members))))
    decreases |members|
  {
    hide *;
    if members == [] {
      NoMembers(codec, done, size);
    } else {
      var first, rest := members[0], members[1..];
      FirstMember(members);
      ReadsOneMember(codec, first);
      assert forall i :: 0 <= i < |rest| ==> rest[i] == members[i + 1];
      assert forall i :: 0 <= i < |rest| ==> MemberTexts(rest)[i] == MemberTexts(members)[i + 1];
      var e := EntryOf(first);
      MembersReadBack(codec, rest, Insert(done, e.key, e.value), size);
      SetsFirst(codec, MemberTexts(members), done, e, size);
      CollectsFirst(done, e, Entries(rest));
    }
  }

  lemma NoMembers<N>(codec: Codec<N>, done: seq<Entry<N>>, size: nat)
    ensures ReadPairs(codec, MemberTexts<N>([]), done, size) == Some(JObject(Collected(done, Entries<N>([]))))
  {}

  lemma FirstMember<N>(members: seq<Member<N>>)
    requires members != []
    ensures |MemberTexts(members)| == |members| && MemberTexts(members)[0] == MemberText(members[0])
    ensures MemberTexts(members)[1..] == MemberTexts(members[1..])
    ensures Entries(members) == [EntryOf(members[0])] + Entries(members[1..])
  {
    hide MemberText, EntryOf;
  }

  lemma SetsFirst<N>(codec: Codec<N>, parts: seq<string>, done: seq<Entry<N>>, e: Entry<N>, size: nat)
    requires parts != [] && (forall i :: 0 <= i < |parts| ==> |parts[i]| <= size)
    requires ReadPair(codec, parts[0]) == Some(e)
    ensures ReadPairs(codec, parts, done, size) == ReadPairs(codec, parts[1..], Insert(done, e.key, e.value), size)
  {
    hide ReadPair, Insert;
  }

  lemma CollectsFirst<N>(done: seq<Entry<N>>, e: Entry<N>, rest: seq<Entry<N>>)
    ensures Collected(done, [e] + rest) == Collected(Insert(done, e.key, e.value), rest)
  {
    hide Insert;
    assert ([e] + rest)[1..] == rest;
  }
}
