/** LIKE and regular-expression matching (crates/core/src/pattern_match.rs).

  The matchers are the source's backtracking searches over character arrays. They are proved
  against declarative readings: LIKE splits the text into one piece per pattern character, and
  a regular expression is a walk through the text with one step per token. */
module PatternMatch {
  import opened Options
  import opened RegexSyntax

  // ----- LIKE ------------------------------------------------------------------------------

  /** What one pattern character accepts. */
  predicate ItemAccepts(item: char, piece: string) {
    if item == '%' then true
    else if item == '_' then |piece| == 1
    else piece == [item]
  }

  function Concat(pieces: seq<string>): string {
    if pieces == [] then [] else pieces[0] + Concat(pieces[1..])
  }

  /** `pieces` cuts `text` into one accepted piece per pattern character. */
  ghost predicate Splits(text: string, pattern: string, pieces: seq<string>) {
    && |pieces| == |pattern|
    && Concat(pieces) == text
    && forall i :: 0 <= i < |pieces| ==> ItemAccepts(pattern[i], pieces[i])
  }

  ghost predicate LikeHolds(text: string, pattern: string) {
    if pattern == [] then text == []
    else
      exists k {:trigger LikeHolds(text[k..], pattern[1..])} ::
        0 <= k <= |text| && ItemAccepts(pattern[0], text[..k]) && LikeHolds(text[k..], pattern[1..])
  }

  lemma HeadThenRest(text: string, pattern: string, k: nat)
    requires pattern != [] && k <= |text|
    requires ItemAccepts(pattern[0], text[..k]) && LikeHolds(text[k..], pattern[1..])
    ensures LikeHolds(text, pattern)
  {
  }

  lemma CutTwice(text: string, head: nat, rest: nat)
    requires head + rest <= |text|
    ensures text[..head + rest][..head] == text[..head]
    ensures text[..head + rest][head..] == text[head..][..rest]
    ensures text[head..][rest..] == text[head + rest..]
  {
  }

  lemma TailOfConcat(left: string, right: string)
    requires left != []
    ensures (left + right)[0] == left[0] && (left + right)[1..] == left[1..] + right
  {
  }

  lemma {:induction false} HoldsSplits(text: string, pattern: string) returns (pieces: seq<string>)
    requires LikeHolds(text, pattern)
    ensures Splits(text, pattern, pieces)
  {
    if pattern == [] {
      pieces := [];
    } else {
      var k :| 0 <= k <= |text| && ItemAccepts(pattern[0], text[..k]) && LikeHolds(text[k..], pattern[1..]);
      var rest := HoldsSplits(text[k..], pattern[1..]);
      pieces := [text[..k]] + rest;
      assert pieces[1..] == rest;
      assert text == text[..k] + text[k..];
    }
  }

  lemma {:induction false} SplitsHolds(text: string, pattern: string, pieces: seq<string>)
    requires Splits(text, pattern, pieces)
    ensures LikeHolds(text, pattern)
  {
    if pattern != [] {
      var k := |pieces[0]|;
      assert text[..k] == pieces[0] && text[k..] == Concat(pieces[1..]);
      SplitsHolds(text[k..], pattern[1..], pieces[1..]);
    }
  }

  lemma {:induction false} LikeConcatSplits(text: string, left: string, right: string) returns (k: nat)
    requires LikeHolds(text, left + right)
    ensures k <= |text| && LikeHolds(text[..k], left) && LikeHolds(text[k..], right)
  {
    var p := left + right;
    if left == [] {
      k := 0;
      assert p == right && text[0..] == text && text[..0] == [];
    } else {
      TailOfConcat(left, right);
      var head :| 0 <= head <= |text| && ItemAccepts(p[0], text[..head]) && LikeHolds(text[head..], p[1..]);
      var rest := LikeConcatSplits(text[head..], left[1..], right);
      k := head + rest;
      CutTwice(text, head, rest);
      HeadThenRest(text[..k], left, head);
    }
  }

  lemma {:induction false} LikeConcatJoins(text: string, left: string, right: string, k: nat)
    requires k <= |text| && LikeHolds(text[..k], left) && LikeHolds(text[k..], right)
    ensures LikeHolds(text, left + right)
  {
    if left == [] {
      assert left + right == right && |text[..k]| == 0 && text[0..] == text;
    } else {
      var head :| 0 <= head <= |text[..k]| && ItemAccepts(left[0], text[..k][..head]) && LikeHolds(text[..k][head..], left[1..]);
      CutTwice(text, head, k - head);
      LikeConcatJoins(text[head..], left[1..], right, k - head);
      TailOfConcat(left, right);
      HeadThenRest(text, left + right, head);
    }
  }

  /** Matching a concatenated pattern is the existence of a split of the text. */
  lemma LikeConcat(text: string, left: string, right: string)
    ensures LikeHolds(text, left + right)
       <==> exists k: nat :: CutsAt(text, left, right, k)
  {
    if LikeHolds(text, left + right) {
      var k := LikeConcatSplits(text, left, right);
      assert CutsAt(text, left, right, k);
    }
    forall k: nat | CutsAt(text, left, right, k) ensures LikeHolds(text, left + right) {
      LikeConcatJoins(text, left, right, k);
    }
  }

  /** The text before position `k` matches `left` and the text from there on `right`. */
  ghost predicate CutsAt(text: string, left: string, right: string, k: nat) {
    k <= |text| && LikeHolds(text[..k], left) && LikeHolds(text[k..], right)
  }

  /** One pattern character against the rest of the text. */
  lemma LikeStep(v: string, p: string, vi: nat, pi: nat)
    requires vi <= |v| && pi < |p|
    ensures p[pi] == '%' ==>
              (LikeHolds(v[vi..], p[pi..]) <==> exists k :: vi <= k <= |v| && LikeHolds(v[k..], p[pi + 1..]))
    ensures p[pi] != '%' ==>
              (LikeHolds(v[vi..], p[pi..]) <==>
               vi < |v| && (p[pi] == '_' || v[vi] == p[pi]) && LikeHolds(v[vi + 1..], p[pi + 1..]))
  {
    var rest, pattern := v[vi..], p[pi..];
    assert pattern[0] == p[pi] && pattern[1..] == p[pi + 1..];
    forall k | 0 <= k <= |rest| ensures rest[k..] == v[vi + k..] {}
    if p[pi] == '%' {
      forall k | vi <= k <= |v| && LikeHolds(v[k..], p[pi + 1..]) ensures LikeHolds(rest, pattern) {
        assert rest[k - vi..] == v[k..];
        HeadThenRest(rest, pattern, k - vi);
      }
    } else if vi < |v| && (p[pi] == '_' || v[vi] == p[pi]) && LikeHolds(v[vi + 1..], p[pi + 1..]) {
      assert rest[..1] == [v[vi]] && rest[1..] == v[vi + 1..];
      HeadThenRest(rest, pattern, 1);
    }
  }

  method LikeRecursive(v: string, p: string, vi: nat, pi: nat) returns (matched: bool)
    requires vi <= |v| && pi <= |p|
    ensures matched <==> LikeHolds(v[vi..], p[pi..])
    decreases |p| - pi
  {
    if pi == |p| {
      return vi == |v|;
    }
    LikeStep(v, p, vi, pi);
    if p[pi] == '%' {
      for skip := vi to |v| + 1
        invariant forall k :: vi <= k < skip ==> !LikeHolds(v[k..], p[pi + 1..])
      {
        var found := LikeRecursive(v, p, skip, pi + 1);
        if found {
          return true;
        }
      }
      return false;
    }
    // Both remaining cases consume exactly one character.
    if p[pi] == '_' {
      if vi < |v| {
        matched := LikeRecursive(v, p, vi + 1, pi + 1);
      } else {
        matched := false;
      }
    } else {
      if vi < |v| && v[vi] == p[pi] {
        matched := LikeRecursive(v, p, vi + 1, pi + 1);
      } else {
        matched := false;
      }
    }
  }

  method Like(value: string, pattern: string) returns (matched: bool)
    ensures matched <==> exists pieces :: Splits(value, pattern, pieces)
  {
    matched := LikeRecursive(value, pattern, 0, 0);
    assert value[0..] == value && pattern[0..] == pattern;
    if matched {
      var pieces := HoldsSplits(value, pattern);
    } else {
      forall pieces | Splits(value, pattern, pieces)
        ensures false
      {
        SplitsHolds(value, pattern, pieces);
      }
    }
  }

  // ----- Regular expressions: tokens ---------------------------------------------------------

  type Matcher = char -> bool

  datatype Token = Token(length: nat, matcher: Matcher)

  /** A class body as inclusive ranges, read left to right: `x-y` when a dash has a character on
      both sides, a single character otherwise. */
  function ClassRanges(body: string): (ranges: seq<(char, char)>) {
    if body == [] then []
    else if |body| > 2 && body[1] == '-' then [(body[0], body[2])] + ClassRanges(body[3..])
    else [(body[0], body[0])] + ClassRanges(body[1..])
  }

  predicate InRanges(ranges: seq<(char, char)>, c: char) {
    exists i :: 0 <= i < |ranges| && ranges[i].0 <= c <= ranges[i].1
  }

  lemma InRangesCons(head: (char, char), tail: seq<(char, char)>, c: char)
    ensures InRanges([head] + tail, c) <==> head.0 <= c <= head.1 || InRanges(tail, c)
  {
    var all := [head] + tail;
    if InRanges(tail, c) {
      var i :| 0 <= i < |tail| && tail[i].0 <= c <= tail[i].1;
      assert all[i + 1] == tail[i];
    }
    if head.0 <= c <= head.1 {
      assert all[0] == head;
    }
    if InRanges(all, c) && !(head.0 <= c <= head.1) {
      var i :| 0 <= i < |all| && all[i].0 <= c <= all[i].1;
      assert all[i] == tail[i - 1];
    }
  }

  /** The scan inside a bracket-class matcher. */
  method BracketMatches(body: string, negate: bool, c: char) returns (accepted: bool)
    ensures accepted <==> negate != InRanges(ClassRanges(body), c)
  {
    var matched := false;
    var i := 0;
    while i < |body|
      invariant 0 <= i <= |body|
      invariant InRanges(ClassRanges(body), c) <==> InRanges(ClassRanges(body[i..]), c)
    {
      var rest := body[i..];
      if i + 2 < |body| && body[i + 1] == '-' {
        assert rest[3..] == body[i + 3..];
        InRangesCons((body[i], body[i + 2]), ClassRanges(rest[3..]), c);
        if body[i] <= c <= body[i + 2] {
          matched := true;
          break;
        }
        i := i + 3;
      } else {
        assert rest[1..] == body[i + 1..];
        InRangesCons((body[i], body[i]), ClassRanges(rest[1..]), c);
        if c == body[i] {
          matched := true;
          break;
        }
        i := i + 1;
      }
    }
    accepted := if negate then !matched else matched;
  }

  /** The first ']' at or after `from`, or the end of the pattern. */
  function ClassEnd(pat: string, from: nat): (end: nat)
    requires from <= |pat|
    ensures from <= end <= |pat|
    ensures ']' !in pat[from..end]
    ensures end < |pat| ==> pat[end] == ']'
    decreases |pat| - from
  {
    if from < |pat| && pat[from] != ']' then ClassEnd(pat, from + 1) else from
  }

  method FindClassEnd(pat: string, from: nat) returns (end: nat)
    requires from <= |pat|
    ensures end == ClassEnd(pat, from)
  {
    end := from;
    while end < |pat| && pat[end] != ']'
      invariant from <= end <= |pat|
      invariant ClassEnd(pat, from) == ClassEnd(pat, end)
    {
      end := end + 1;
    }
  }

  function ParseBracketClass(pat: string, pi: nat): (token: Option<Token>)
    requires pi < |pat| && pat[pi] == '['
    ensures token.Some? ==> 2 <= token.value.length <= |pat| - pi
  {
    var negate := pi + 1 < |pat| && pat[pi + 1] == '^';
    var start := if negate then pi + 2 else pi + 1;
    var end := ClassEnd(pat, start);
    if end >= |pat| then None
    else
      var ranges := ClassRanges(pat[start..end]);
      Some(Token(end - pi + 1, (c: char) => negate != InRanges(ranges, c)))
  }

  function ParseToken(tables: Tables, pat: string, pi: nat): (token: Option<Token>)
    ensures token.Some? ==> 1 <= token.value.length && pi + token.value.length <= |pat|
  {
    if pi >= |pat| then None
    else if pat[pi] == '.' then Some(Token(1, (c: char) => true))
    else if pat[pi] == '\\' && pi + 1 < |pat| then
      var next := pat[pi + 1];
      Some(Token(2,
                 if next == 'd' then (c: char) => IsDigit(c)
                 else if next == 'w' then (c: char) => tables.alphanumeric(c) || c == '_'
                 else if next == 's' then (c: char) => tables.whitespace(c)
                 else if next == 'D' then (c: char) => !IsDigit(c)
                 else if next == 'W' then (c: char) => !tables.alphanumeric(c) && c != '_'
                 else if next == 'S' then (c: char) => !tables.whitespace(c)
                 else (c: char) => c == next))
    else if pat[pi] == '[' then ParseBracketClass(pat, pi)
    else
      var ch := pat[pi];
      Some(Token(1, (c: char) => c == ch))
  }

  // ----- Regular expressions: meaning --------------------------------------------------------

  datatype Item = Item(matcher: Matcher, quantifier: Quantifier)

  function QuantifierAt(pat: string, at: nat): Quantifier {
    if at < |pat| && pat[at] == '*' then Star
    else if at < |pat| && pat[at] == '+' then Plus
    else if at < |pat| && pat[at] == '?' then Optional
    else Once
  }

  /** The pattern as a list of items, or None when a class is never closed. */
  function Tokenize(tables: Tables, pat: string, pi: nat): (items: Option<seq<Item>>)
    decreases |pat| - pi
  {
    if pi >= |pat| then Some([])
    else
      var token := ParseToken(tables, pat, pi);
      if token.None? then None
      else
        var next := pi + token.value.length;
        var quantifier := QuantifierAt(pat, next);
        var rest := Tokenize(tables, pat, if quantifier == Once then next else next + 1);
        if rest.None? then None else Some([Item(token.value.matcher, quantifier)] + rest.value)
  }

  /** One item consumes exactly the characters in [from, to). */
  ghost predicate Step(item: Item, text: string, from: nat, to: nat) {
    && from <= to <= |text|
    && (forall k :: from <= k < to ==> item.matcher(text[k]))
    && match item.quantifier
       case Once => to == from + 1
       case Optional => to <= from + 1
       case Plus => from < to
       case Star => true
  }

  /** The items, in order, lead from position `from` to position `to`. */
  ghost predicate Reaches(items: seq<Item>, text: string, from: nat, to: nat) {
    if items == [] then from == to
    else exists mid: nat :: Step(items[0], text, from, mid) && Reaches(items[1..], text, mid, to)
  }

  // ----- Regular expressions: tokens read what a pattern spells --------------------------------

  lemma {:induction false} PartsMean(body: string, parts: seq<ClassPart>, c: char)
    requires PartsText(parts) == body && PartsPlaced(parts)
    ensures InRanges(ClassRanges(body), c) <==> InParts(parts, c)
  {
    if parts != [] {
      var n := |PartText(parts[0])|;
      var rest := PartsText(parts[1..]);
      assert body[n..] == rest;
      PartsMean(rest, parts[1..], c);
      InPartsCons(parts, c);
      var head := match parts[0] case Single(d) => (d, d) case Range(low, high) => (low, high);
      assert ClassRanges(body) == [head] + ClassRanges(rest);
      InRangesCons(head, ClassRanges(rest), c);
    }
  }

  lemma InPartsCons(parts: seq<ClassPart>, c: char)
    requires parts != []
    ensures InParts(parts, c) <==> InPart(parts[0], c) || InParts(parts[1..], c)
  {
    if InParts(parts[1..], c) {
      var i :| 0 <= i < |parts| - 1 && InPart(parts[1..][i], c);
      assert parts[i + 1] == parts[1..][i];
    }
    if InParts(parts, c) && !InPart(parts[0], c) {
      var i :| 0 <= i < |parts| && InPart(parts[i], c);
      assert parts[1..][i - 1] == parts[i];
    }
  }

  lemma {:induction false} PartsOf(body: string) returns (parts: seq<ClassPart>)
    ensures PartsText(parts) == body && PartsPlaced(parts)
  {
    if body == [] {
      parts := [];
    } else if |body| > 2 && body[1] == '-' {
      var rest := PartsOf(body[3..]);
      parts := [Range(body[0], body[2])] + rest;
      assert parts[1..] == rest && body == [body[0], '-', body[2]] + body[3..];
    } else {
      var rest := PartsOf(body[1..]);
      parts := [Single(body[0])] + rest;
      assert parts[1..] == rest && body == [body[0]] + body[1..];
    }
  }

  lemma {:induction false} ClassEndAt(pat: string, from: nat, end: nat)
    requires from <= end < |pat| && pat[end] == ']' && ']' !in pat[from..end]
    ensures ClassEnd(pat, from) == end
    decreases end - from
  {
    if from < end {
      assert pat[from] == pat[from..end][0];
      assert pat[from + 1..end] == pat[from..end][1..];
      ClassEndAt(pat, from + 1, end);
    }
  }

  /** The matcher of a token accepts what the atom accepts. */
  ghost predicate MatchesAtom(tables: Tables, matcher: Matcher, atom: Atom) {
    forall c :: matcher(c) <==> Accepts(tables, atom, c)
  }

  /** A spelled class is read to its bracket. */
  lemma ClassSpelled(tables: Tables, pat: string, pi: nat, atom: Atom, behind: nat)
    requires atom.Class? && PartsPlaced(atom.parts) && ']' !in PartsText(atom.parts)
    requires !atom.negated ==> !("^" <= PartsText(atom.parts))
    requires pi <= behind <= |pat| && pat[pi..behind] == AtomText(atom)
    ensures ParseToken(tables, pat, pi).Some? && ParseToken(tables, pat, pi).value.length == behind - pi
    ensures MatchesAtom(tables, ParseToken(tables, pat, pi).value.matcher, atom)
  {
    var body := PartsText(atom.parts);
    assert pat[pi..behind] == "[" + (if atom.negated then "^" else "") + body + "]";
    hide *;
    var start: nat := if atom.negated then pi + 2 else pi + 1;
    ClassPlaces(pat, pi, behind, atom.negated, body, start);
    ParsedClass(tables, pat, pi, start, behind - 1);
    var matcher := ParseToken(tables, pat, pi).value.matcher;
    forall c ensures matcher(c) <==> Accepts(tables, atom, c) {
      PartsMean(body, atom.parts, c);
      AcceptsClass(tables, atom, c);
    }
    AllAccepted(tables, matcher, atom);
  }

  lemma ClassPlaces(pat: string, pi: nat, behind: nat, negated: bool, body: string, start: nat)
    requires pi <= behind <= |pat| && pat[pi..behind] == "[" + (if negated then "^" else "") + body + "]"
    requires ']' !in body && (!negated ==> !("^" <= body)) && start == if negated then pi + 2 else pi + 1
    ensures pi + 1 < |pat| && pat[pi] == '[' && (pat[pi + 1] == '^' <==> negated)
    ensures start <= behind - 1 && pat[start..behind - 1] == body && ClassEnd(pat, start) == behind - 1
  {
    hide *;
    var text := pat[pi..behind];
    ClassInside(negated, body, text);
    SliceOfSlice(pat, pi, behind, start, behind - 1);
    assert pat[pi] == text[0] && pat[behind - 1] == text[|text| - 1] && pat[pi + 1] == text[1];
    ClassEndAt(pat, start, behind - 1);
  }

  lemma ParsedClass(tables: Tables, pat: string, pi: nat, start: nat, end: nat)
    requires pi + 1 < |pat| && pat[pi] == '[' && start == (if pat[pi + 1] == '^' then pi + 2 else pi + 1)
    requires start <= end < |pat| && ClassEnd(pat, start) == end
    ensures ParseToken(tables, pat, pi).Some? && ParseToken(tables, pat, pi).value.length == end + 1 - pi
    ensures forall c :: ParseToken(tables, pat, pi).value.matcher(c) <==> ((pat[pi + 1] == '^') != InRanges(ClassRanges(pat[start..end]), c))
  {
    hide ClassEnd, ClassRanges, InRanges;
  }

  lemma AcceptsClass(tables: Tables, atom: Atom, c: char)
    requires atom.Class?
    ensures Accepts(tables, atom, c) <==> atom.negated != InParts(atom.parts, c)
  {}

  lemma AllAccepted(tables: Tables, matcher: Matcher, atom: Atom)
    requires forall c :: matcher(c) <==> Accepts(tables, atom, c)
    ensures MatchesAtom(tables, matcher, atom)
  {}

  lemma SliceOfSlice(s: string, from: nat, to: nat, low: nat, high: nat)
    requires from <= low <= high <= to <= |s|
    ensures s[from..to][low - from..high - from] == s[low..high]
  {
    var t := s[from..to];
    var part := t[low - from..high - from];
    forall k | 0 <= k < |part| ensures part[k] == s[low..high][k] {
      assert part[k] == t[low - from + k] == s[low + k];
    }
  }

  lemma SliceParts(s: string, from: nat, mid: nat, to: nat)
    requires from <= mid <= to <= |s|
    ensures s[from..to] == s[from..mid] + s[mid..to]
  {}

  lemma ClassInside(negated: bool, body: string, text: string)
    requires text == "[" + (if negated then "^" else "") + body + "]"
    ensures |text| > 1 && text[0] == '[' && text[|text| - 1] == ']'
    ensures negated ==> |text| > 2
    ensures text[if negated then 2 else 1..|text| - 1] == body
    ensures negated ==> text[1] == '^'
    ensures !negated && !("^" <= body) ==> text[1] != '^'
  {}

  /** A spelled piece is read as its atom under its quantifier. */
  lemma PieceRead(tables: Tables, pat: string, pi: nat, piece: Piece, behind: nat)
    requires pi <= |pat| && PieceText(piece) <= pat[pi..] && behind == pi + |AtomText(piece.atom)|
    requires Placed(piece, pat[pi..][|PieceText(piece)|..])
    ensures behind <= |pat| && ParseToken(tables, pat, pi).Some? && ParseToken(tables, pat, pi).value.length == behind - pi
    ensures MatchesAtom(tables, ParseToken(tables, pat, pi).value.matcher, piece.atom)
    ensures QuantifierAt(pat, behind) == piece.quantifier
  {
    var text := PieceText(piece);
    var rest := pat[pi..][|text|..];
    assert pat[pi..behind] == AtomText(piece.atom) by {
      assert text[..behind - pi] == AtomText(piece.atom);
    }
    QuantifierRead(pat, behind, piece.quantifier, rest, pi + |text|);
    AtomRead(tables, pat, pi, piece, rest, behind);
  }

  lemma QuantifierRead(pat: string, behind: nat, quantifier: Quantifier, rest: string, next: nat)
    requires behind <= next <= |pat| && pat[behind..next] == QuantifierText(quantifier) && rest == pat[next..]
    requires quantifier == Once ==> rest == [] || rest[0] !in {'*', '+', '?'}
    ensures QuantifierAt(pat, behind) == quantifier
  {
    if quantifier == Once {
      assert next == behind;
      assert rest != [] ==> rest[0] == pat[behind];
    } else {
      assert pat[behind] == pat[behind..next][0];
    }
  }

  lemma AtomRead(tables: Tables, pat: string, pi: nat, piece: Piece, rest: string, behind: nat)
    requires pi <= behind <= |pat| && pat[pi..behind] == AtomText(piece.atom) && Placed(piece, rest)
    requires rest == [] && piece.quantifier == Once ==> behind == |pat|
    ensures ParseToken(tables, pat, pi).Some? && ParseToken(tables, pat, pi).value.length == behind - pi
    ensures MatchesAtom(tables, ParseToken(tables, pat, pi).value.matcher, piece.atom)
  {
    var text := AtomText(piece.atom);
    assert pat[pi] == text[0];
    match piece.atom
    case Any =>
    case Literal(_) =>
    case Escape(_) => assert pat[pi + 1] == text[1];
    case Class(_, _) => ClassSpelled(tables, pat, pi, piece.atom, behind);
  }

  /** Every token is spelled by some piece. */
  lemma TokenSpelled(tables: Tables, pat: string, pi: nat) returns (piece: Piece)
    requires pi < |pat| && ParseToken(tables, pat, pi).Some?
    ensures |AtomText(piece.atom)| == ParseToken(tables, pat, pi).value.length
    ensures PieceText(piece) <= pat[pi..] && Placed(piece, pat[pi..][|PieceText(piece)|..])
  {
    var behind := pi + ParseToken(tables, pat, pi).value.length;
    hide *;
    var quantifier := QuantifierAt(pat, behind);
    var atom := AtomOf(tables, pat, pi);
    piece := Piece(atom, quantifier);
    var next := QuantifierEnds(pat, behind);
    SliceParts(pat, pi, behind, next);
    assert pat[pi..][..next - pi] == pat[pi..next] && pat[pi..][next - pi..] == pat[next..];
    PieceIsPlaced(piece, pat[next..], behind == |pat|);
  }

  lemma QuantifierEnds(pat: string, behind: nat) returns (next: nat)
    requires behind <= |pat|
    ensures behind <= next <= |pat| && pat[behind..next] == QuantifierText(QuantifierAt(pat, behind))
    ensures QuantifierAt(pat, behind) == Once ==> next == behind && (pat[next..] == [] || pat[next..][0] !in {'*', '+', '?'})
  {
    next := if QuantifierAt(pat, behind) == Once then behind else behind + 1;
  }

  lemma PieceIsPlaced(piece: Piece, rest: string, last: bool)
    requires PlainAtom(piece.atom, last) && (last ==> rest == [] && piece.quantifier == Once)
    requires piece.quantifier == Once ==> rest == [] || rest[0] !in {'*', '+', '?'}
    ensures Placed(piece, rest) && PieceText(piece) == AtomText(piece.atom) + QuantifierText(piece.quantifier)
  {
    hide PartsPlaced;
  }

  /** The atom is what its text says, at the end of the pattern or before it. */
  ghost predicate PlainAtom(atom: Atom, last: bool) {
    match atom
    case Any => true
    case Escape(_) => true
    case Class(negated, parts) => PartsPlaced(parts) && ']' !in PartsText(parts) && (!negated ==> !("^" <= PartsText(parts)))
    case Literal(c) => c != '.' && c != '[' && (c == '\\' ==> last)
  }

  lemma AtomOf(tables: Tables, pat: string, pi: nat) returns (atom: Atom)
    requires pi < |pat| && ParseToken(tables, pat, pi).Some?
    ensures var behind := pi + ParseToken(tables, pat, pi).value.length;
      AtomText(atom) == pat[pi..behind] && PlainAtom(atom, behind == |pat|)
  {
    var behind := pi + ParseToken(tables, pat, pi).value.length;
    if pat[pi] == '.' {
      atom := Any;
    } else if pat[pi] == '\\' && pi + 1 < |pat| {
      atom := Escape(pat[pi + 1]);
    } else if pat[pi] == '[' {
      atom := ClassOf(tables, pat, pi);
    } else {
      atom := Literal(pat[pi]);
    }
  }

  lemma ClassOf(tables: Tables, pat: string, pi: nat) returns (atom: Atom)
    requires pi < |pat| && pat[pi] == '[' && ParseToken(tables, pat, pi).Some?
    ensures atom.Class? && AtomText(atom) == pat[pi..pi + ParseToken(tables, pat, pi).value.length]
    ensures PartsPlaced(atom.parts) && ']' !in PartsText(atom.parts) && (!atom.negated ==> !("^" <= PartsText(atom.parts)))
  {
    hide *;
    var negated, start, end := ClassToken(tables, pat, pi);
    var body := pat[start..end];
    var parts := PartsOf(body);
    atom := Class(negated, parts);
    SliceParts(pat, pi, start, end + 1);
    SliceParts(pat, start, end, end + 1);
    OneSlice(pat, end);
    OpensClass(pat, pi, negated, start);
    Bracketed(negated, parts, pat[pi..start], pat[end..end + 1]);
  }

  lemma ClassToken(tables: Tables, pat: string, pi: nat) returns (negated: bool, start: nat, end: nat)
    requires pi < |pat| && pat[pi] == '[' && ParseToken(tables, pat, pi).Some?
    ensures start == (if negated then pi + 2 else pi + 1) && start <= end < |pat|
    ensures negated ==> pat[pi + 1] == '^'
    ensures pat[end] == ']' && ParseToken(tables, pat, pi).value.length == end + 1 - pi
    ensures ']' !in pat[start..end] && (!negated ==> !("^" <= pat[start..end]))
  {
    hide ClassRanges, InRanges;
    negated := pi + 1 < |pat| && pat[pi + 1] == '^';
    start := if negated then pi + 2 else pi + 1;
    end := ClassEnd(pat, start);
    if !negated && start < end {
      assert pat[start] == pat[start..end][0];
    }
  }

  lemma OneSlice(s: string, k: nat)
    requires k < |s|
    ensures s[k..k + 1] == [s[k]]
  {}

  lemma OpensClass(pat: string, pi: nat, negated: bool, start: nat)
    requires pi < start <= |pat| && pat[pi] == '[' && start == (if negated then pi + 2 else pi + 1)
    requires negated ==> pat[pi + 1] == '^'
    ensures pat[pi..start] == "[" + (if negated then "^" else "")
  {}

  lemma Bracketed(negated: bool, parts: seq<ClassPart>, open: string, close: string)
    requires open == "[" + (if negated then "^" else "") && close == "]"
    ensures AtomText(Class(negated, parts)) == open + (PartsText(parts) + close)
  {}

  /** Items with the meaning and the quantifiers of the pieces. */
  ghost predicate StandFor(tables: Tables, items: seq<Item>, pieces: seq<Piece>) {
    && |items| == |pieces|
    && forall i :: 0 <= i < |items| ==>
         items[i].quantifier == pieces[i].quantifier && MatchesAtom(tables, items[i].matcher, pieces[i].atom)
  }

  /** The tokens of a pattern are those its pieces spell, */
  lemma {:induction false} SpelledIsRead(tables: Tables, pat: string, pi: nat, pieces: seq<Piece>)
    requires pi <= |pat| && Spells(pieces, pat[pi..])
    ensures Tokenize(tables, pat, pi).Some? && StandFor(tables, Tokenize(tables, pat, pi).value, pieces)
    decreases |pieces|
  {
    hide *;
    if pieces == [] {
      NoTokens(tables, pat, pi);
    } else {
      SpellsFirst(pieces, pat[pi..]);
      var piece := pieces[0];
      var behind, next := pi + |AtomText(piece.atom)|, pi + |PieceText(piece)|;
      PieceRead(tables, pat, pi, piece, behind);
      assert pat[pi..][next - pi..] == pat[next..];
      TextLength(piece);
      SpelledIsRead(tables, pat, next, pieces[1..]);
      TokenizeStep(tables, pat, pi, next);
      StandForMore(tables, Item(ParseToken(tables, pat, pi).value.matcher, piece.quantifier), piece,
                   Tokenize(tables, pat, next).value, pieces);
    }
  }

  lemma NoTokens(tables: Tables, pat: string, pi: nat)
    requires pi <= |pat| && Spells([], pat[pi..])
    ensures Tokenize(tables, pat, pi) == Some([]) && StandFor(tables, [], [])
  {}

  lemma SpellsFirst(pieces: seq<Piece>, pattern: string)
    requires Spells(pieces, pattern) && pieces != []
    ensures var front := PieceText(pieces[0]);
      && front != [] && front <= pattern && Placed(pieces[0], pattern[|front|..]) && Spells(pieces[1..], pattern[|front|..])
  {}

  lemma StandForMore(tables: Tables, item: Item, piece: Piece, items: seq<Item>, pieces: seq<Piece>)
    requires pieces != [] && pieces[0] == piece && StandFor(tables, items, pieces[1..])
    requires item.quantifier == piece.quantifier && MatchesAtom(tables, item.matcher, piece.atom)
    ensures StandFor(tables, [item] + items, pieces)
  {
    hide MatchesAtom;
    forall i | 0 < i < |pieces| ensures ([item] + items)[i] == items[i - 1] && pieces[i] == pieces[1..][i - 1] {}
  }

  lemma TextLength(piece: Piece)
    ensures |PieceText(piece)| == |AtomText(piece.atom)| + if piece.quantifier == Once then 0 else 1
  {}

  /** and a pattern that can be read spells pieces. */
  lemma {:induction false} ReadIsSpelled(tables: Tables, pat: string, pi: nat) returns (pieces: seq<Piece>)
    requires pi <= |pat| && Tokenize(tables, pat, pi).Some?
    ensures Spells(pieces, pat[pi..])
    decreases |pat| - pi
  {
    if pi == |pat| {
      pieces := [];
    } else {
      var piece := TokenSpelled(tables, pat, pi);
      var behind, next := pi + |AtomText(piece.atom)|, pi + |PieceText(piece)|;
      PieceRead(tables, pat, pi, piece, behind);
      TextLength(piece);
      TokenizeStep(tables, pat, pi, next);
      hide MatchesAtom, Placed, PieceText, AtomText, ParseToken, Tokenize;
      assert pat[pi..][next - pi..] == pat[next..];
      var rest := ReadIsSpelled(tables, pat, next);
      pieces := [piece] + rest;
      assert pieces[1..] == rest;
    }
  }

  lemma {:induction false} LeadIsReaches(tables: Tables, items: seq<Item>, pieces: seq<Piece>, text: string, from: nat, to: nat)
    requires StandFor(tables, items, pieces)
    ensures Lead(tables, pieces, text, from, to) <==> Reaches(items, text, from, to)
    decreases |pieces|
  {
    if pieces != [] {
      forall mid: nat
        ensures Takes(tables, pieces[0], text, from, mid) <==> Step(items[0], text, from, mid)
        ensures Lead(tables, pieces[1..], text, mid, to) <==> Reaches(items[1..], text, mid, to)
      {
        LeadIsReaches(tables, items[1..], pieces[1..], text, mid, to);
        StepIsTakes(tables, items[0], pieces[0], text, from, mid);
      }
      hide Takes, Step, StandFor;
    }
  }

  lemma StepIsTakes(tables: Tables, item: Item, piece: Piece, text: string, from: nat, mid: nat)
    requires item.quantifier == piece.quantifier && MatchesAtom(tables, item.matcher, piece.atom)
    ensures Takes(tables, piece, text, from, mid) <==> Step(item, text, from, mid)
  {
    hide Accepts;
  }

  /** The pattern from `pi` on spells pieces that lead from `from` to `to`. */
  ghost predicate PatternReaches(tables: Tables, text: string, pat: string, pi: nat, from: nat, to: nat) {
    pi <= |pat| && exists pieces :: Spells(pieces, pat[pi..]) && Lead(tables, pieces, text, from, to)
  }

  /** The tokens read at `pi` lead from `from` to `to`. */
  ghost predicate TokensReach(tables: Tables, text: string, pat: string, pi: nat, from: nat, to: nat) {
    Tokenize(tables, pat, pi).Some? && Reaches(Tokenize(tables, pat, pi).value, text, from, to)
  }

  /** What the tokens reach is what the pattern says. */
  lemma TokensReachPattern(tables: Tables, text: string, pat: string, pi: nat)
    requires pi <= |pat|
    ensures forall from: nat, to: nat ::
              PatternReaches(tables, text, pat, pi, from, to) <==> TokensReach(tables, text, pat, pi, from, to)
  {
    hide *;
    forall from: nat, to: nat
      ensures PatternReaches(tables, text, pat, pi, from, to) <==> TokensReach(tables, text, pat, pi, from, to)
    {
      ReachedByTokens(tables, text, pat, pi, from, to);
    }
  }

  lemma ReachedByTokens(tables: Tables, text: string, pat: string, pi: nat, from: nat, to: nat)
    requires pi <= |pat|
    ensures PatternReaches(tables, text, pat, pi, from, to) <==> TokensReach(tables, text, pat, pi, from, to)
  {
    hide Tokenize, Reaches, Lead, Spells, StandFor;
    if Tokenize(tables, pat, pi).Some? {
      var items := Tokenize(tables, pat, pi).value;
      var spelled := ReadIsSpelled(tables, pat, pi);
      forall pieces | Spells(pieces, pat[pi..])
        ensures Lead(tables, pieces, text, from, to) <==> Reaches(items, text, from, to)
      {
        SpelledIsRead(tables, pat, pi, pieces);
        LeadIsReaches(tables, items, pieces, text, from, to);
      }
    } else {
      forall pieces ensures !Spells(pieces, pat[pi..]) {
        if Spells(pieces, pat[pi..]) {
          SpelledIsRead(tables, pat, pi, pieces);
        }
      }
    }
  }

  /** `result` is the farthest end any match from `from` has, or None when there is none. */
  ghost predicate IsLongest(tables: Tables, text: string, pat: string, pi: nat, from: nat, result: Option<nat>) {
    && (forall to: nat :: PatternReaches(tables, text, pat, pi, from, to) ==> result.Some? && to <= result.value)
    && (result.Some? ==> PatternReaches(tables, text, pat, pi, from, result.value))
  }

  lemma {:induction false} ReachesInText(items: seq<Item>, text: string, from: nat, to: nat)
    requires Reaches(items, text, from, to) && from <= |text|
    ensures from <= to <= |text|
  {
    if items != [] {
      var mid: nat :| Step(items[0], text, from, mid) && Reaches(items[1..], text, mid, to);
      ReachesInText(items[1..], text, mid, to);
    }
  }

  /** The exchange step: when two steps of one item cross, the later start can take the earlier
      start's ending. */
  lemma CrossingSteps(item: Item, text: string, a: nat, a': nat, b: nat, b': nat)
    requires Step(item, text, a, a') && Step(item, text, b, b')
    requires a <= b && b' < a'
    ensures Step(item, text, b, a')
  {
  }

  /** Starting later never costs reach: if both starts can match, the later one gets at least as
      far. This is what makes the greedy first answer the longest one. */
  lemma {:induction false} LaterStartReachesAsFar(items: seq<Item>, text: string, a: nat, e: nat, b: nat, f: nat)
    returns (far: nat)
    requires a <= b && Reaches(items, text, a, e) && Reaches(items, text, b, f)
    ensures e <= far && Reaches(items, text, b, far)
  {
    if items == [] {
      far := b;
    } else {
      var a': nat :| Step(items[0], text, a, a') && Reaches(items[1..], text, a', e);
      var b': nat :| Step(items[0], text, b, b') && Reaches(items[1..], text, b', f);
      if b' < a' {
        CrossingSteps(items[0], text, a, a', b, b');
        far := e;
      } else {
        far := LaterStartReachesAsFar(items[1..], text, a', e, b', f);
      }
    }
  }

  /** The longest end from the latest viable start bounds every end from an earlier start. */
  lemma LatestStartIsLongest(tables: Tables, text: string, pat: string, pi: nat, a: nat, b: nat, result: Option<nat>)
    requires a <= b && pi <= |pat| && result.Some? && IsLongest(tables, text, pat, pi, b, result)
    ensures forall to: nat :: PatternReaches(tables, text, pat, pi, a, to) ==> to <= result.value
  {
    hide Tokenize, Reaches, PatternReaches;
    TokensReachPattern(tables, text, pat, pi);
    forall to: nat | PatternReaches(tables, text, pat, pi, a, to)
      ensures to <= result.value
    {
      assert TokensReach(tables, text, pat, pi, a, to) && TokensReach(tables, text, pat, pi, b, result.value);
      var far := LaterStartReachesAsFar(Tokenize(tables, pat, pi).value, text, a, to, b, result.value);
      assert TokensReach(tables, text, pat, pi, b, far);
    }
  }

  // ----- Regular expressions: the matcher ----------------------------------------------------

  /** One step of the item at the head of the pattern, then the rest. */
  lemma UnfoldPattern(tables: Tables, text: string, pat: string, pi: nat, next: nat, item: Item, from: nat, to: nat)
    requires pi < |pat| && ParseToken(tables, pat, pi).Some?
    requires item.matcher == ParseToken(tables, pat, pi).value.matcher
    requires item.quantifier == QuantifierAt(pat, pi + ParseToken(tables, pat, pi).value.length)
    requires next == pi + ParseToken(tables, pat, pi).value.length + (if item.quantifier == Once then 0 else 1)
    ensures PatternReaches(tables, text, pat, pi, from, to)
       <==> exists mid: nat :: Step(item, text, from, mid) && PatternReaches(tables, text, pat, next, mid, to)
  {
    hide *;
    UnfoldTokens(tables, text, pat, pi, next, item, from, to);
    TokensReachPattern(tables, text, pat, pi);
    TokensReachPattern(tables, text, pat, next);
  }

  lemma UnfoldTokens(tables: Tables, text: string, pat: string, pi: nat, next: nat, item: Item, from: nat, to: nat)
    requires pi < |pat| && ParseToken(tables, pat, pi).Some?
    requires item.matcher == ParseToken(tables, pat, pi).value.matcher
    requires item.quantifier == QuantifierAt(pat, pi + ParseToken(tables, pat, pi).value.length)
    requires next == pi + ParseToken(tables, pat, pi).value.length + (if item.quantifier == Once then 0 else 1)
    ensures next <= |pat|
    ensures TokensReach(tables, text, pat, pi, from, to)
       <==> exists mid: nat :: Step(item, text, from, mid) && TokensReach(tables, text, pat, next, mid, to)
  {
    var rest := Tokenize(tables, pat, next);
    if rest.Some? {
      var items := Tokenize(tables, pat, pi).value;
      assert items == [item] + rest.value && items[1..] == rest.value;
    }
  }

  /** Nothing is left to match, */
  lemma EndReaches(tables: Tables, text: string, pat: string, from: nat)
    ensures IsLongest(tables, text, pat, |pat|, from, Some(from))
  {
    TokensReachPattern(tables, text, pat, |pat|);
    hide PatternReaches;
    assert forall to: nat :: TokensReach(tables, text, pat, |pat|, from, to) <==> from == to;
    hide TokensReach;
  }

  /** or what is left cannot be read. */
  lemma UnreadReachesNothing(tables: Tables, text: string, pat: string, pi: nat, from: nat)
    requires pi < |pat| && ParseToken(tables, pat, pi).None?
    ensures IsLongest(tables, text, pat, pi, from, None)
  {
    TokensReachPattern(tables, text, pat, pi);
    hide PatternReaches;
    assert forall to: nat :: !TokensReach(tables, text, pat, pi, from, to);
    hide TokensReach;
  }

  method RegexMatchAt(tables: Tables, text: string, pat: string, ci: nat, pi: nat) returns (result: Option<nat>)
    requires ci <= |text| && pi <= |pat|
    ensures IsLongest(tables, text, pat, pi, ci, result)
    ensures result.Some? ==> ci <= result.value <= |text|
    decreases |pat| - pi, 0
  {
    hide PatternReaches, Tokenize, ParseToken, IsLongest;
    if pi >= |pat| {
      EndReaches(tables, text, pat, ci);
      return Some(ci);
    }
    var token := ParseToken(tables, pat, pi);
    if token.None? {
      UnreadReachesNothing(tables, text, pat, pi, ci);
      return None;
    }
    var Token(length, matcher) := token.value;
    var nextPi := pi + length;
    ghost var item := Item(matcher, QuantifierAt(pat, nextPi));
    var hasQuantifier := nextPi < |pat|;
    ghost var next := if item.quantifier == Once then nextPi else nextPi + 1;
    if hasQuantifier && pat[nextPi] == '*' {
      result := RegexMatchStar(tables, text, pat, ci, nextPi + 1, matcher);
      assert forall mid: nat :: Step(item, text, ci, mid) <==> Run(matcher, text, ci, mid);
    } else if hasQuantifier && pat[nextPi] == '+' {
      result := None;
      if ci < |text| && matcher(text[ci]) {
        result := RegexMatchStar(tables, text, pat, ci + 1, nextPi + 1, matcher);
        assert forall mid: nat :: Step(item, text, ci, mid) <==> Run(matcher, text, ci + 1, mid);
      } else {
        assert forall mid: nat :: !Step(item, text, ci, mid);
      }
    } else if hasQuantifier && pat[nextPi] == '?' {
      result := RegexMatchOptional(tables, text, pat, ci, nextPi + 1, matcher);
    } else {
      result := None;
      if ci < |text| && matcher(text[ci]) {
        assert forall mid: nat :: Step(item, text, ci, mid) <==> mid == ci + 1;
        result := RegexMatchAt(tables, text, pat, ci + 1, nextPi);
        LongestParts(tables, text, pat, nextPi, ci + 1, result);
      } else {
        assert forall mid: nat :: !Step(item, text, ci, mid);
      }
    }
    StepThenRest(tables, text, pat, pi, next, item, ci, result);
  }

  lemma LongestParts(tables: Tables, text: string, pat: string, pi: nat, from: nat, result: Option<nat>)
    requires IsLongest(tables, text, pat, pi, from, result)
    ensures forall to: nat :: PatternReaches(tables, text, pat, pi, from, to) ==> result.Some? && to <= result.value
    ensures result.Some? ==> PatternReaches(tables, text, pat, pi, from, result.value)
  {}

  /** The farthest end over all steps of the first item is the farthest end of the pattern. */
  lemma StepThenRest(tables: Tables, text: string, pat: string, pi: nat, next: nat, item: Item, from: nat, result: Option<nat>)
    requires pi < |pat| && ParseToken(tables, pat, pi).Some?
    requires item.matcher == ParseToken(tables, pat, pi).value.matcher
    requires item.quantifier == QuantifierAt(pat, pi + ParseToken(tables, pat, pi).value.length)
    requires next == pi + ParseToken(tables, pat, pi).value.length + (if item.quantifier == Once then 0 else 1)
    requires forall mid: nat, to: nat :: Step(item, text, from, mid) && PatternReaches(tables, text, pat, next, mid, to)
               ==> result.Some? && to <= result.value
    requires result.Some? ==>
               exists mid: nat :: Step(item, text, from, mid) && PatternReaches(tables, text, pat, next, mid, result.value)
    ensures IsLongest(tables, text, pat, pi, from, result)
  {
    hide PatternReaches, Tokenize, ParseToken, Step;
    forall to: nat | PatternReaches(tables, text, pat, pi, from, to) ensures result.Some? && to <= result.value {
      UnfoldPattern(tables, text, pat, pi, next, item, from, to);
    }
    if result.Some? {
      UnfoldPattern(tables, text, pat, pi, next, item, from, result.value);
    }
  }

  /** The branch of an optional item: with it if that leads anywhere, else without it. */
  method RegexMatchOptional(tables: Tables, text: string, pat: string, ci: nat, nextPi: nat, matcher: Matcher)
    returns (result: Option<nat>)
    requires ci <= |text| && nextPi <= |pat|
    ensures result.Some? ==> ci <= result.value <= |text|
    ensures var item := Item(matcher, Optional);
      && (forall mid: nat, to: nat :: Step(item, text, ci, mid) && PatternReaches(tables, text, pat, nextPi, mid, to)
            ==> result.Some? && to <= result.value)
      && (result.Some? ==>
            exists mid: nat :: Step(item, text, ci, mid) && PatternReaches(tables, text, pat, nextPi, mid, result.value))
    decreases |pat| - nextPi, 1
  {
    hide PatternReaches;
    ghost var item := Item(matcher, Optional);
    assert Step(item, text, ci, ci);
    if ci < |text| && matcher(text[ci]) {
      assert Step(item, text, ci, ci + 1);
      var taken := RegexMatchAt(tables, text, pat, ci + 1, nextPi);
      if taken.Some? {
        LatestStartIsLongest(tables, text, pat, nextPi, ci, ci + 1, taken);
        return taken;
      }
    }
    result := RegexMatchAt(tables, text, pat, ci, nextPi);
  }

  /** Every character in [from, to) is accepted. */
  ghost predicate Run(matcher: Matcher, text: string, from: nat, to: nat) {
    from <= to <= |text| && forall k :: from <= k < to ==> matcher(text[k])
  }

  method RegexMatchStar(tables: Tables, text: string, pat: string, ci: nat, nextPi: nat, matcher: Matcher)
    returns (result: Option<nat>)
    requires ci <= |text| && nextPi <= |pat|
    ensures result.Some? ==> ci <= result.value <= |text|
    ensures result.Some? ==>
              exists mid: nat :: Run(matcher, text, ci, mid) && PatternReaches(tables, text, pat, nextPi, mid, result.value)
    ensures forall mid: nat, to: nat :: Run(matcher, text, ci, mid) && PatternReaches(tables, text, pat, nextPi, mid, to)
              ==> result.Some? && to <= result.value
    decreases |pat| - nextPi, 1
  {
    hide PatternReaches;
    var end := ci;
    while end < |text| && matcher(text[end])
      invariant Run(matcher, text, ci, end)
    {
      end := end + 1;
    }
    assert forall mid: nat :: Run(matcher, text, ci, mid) ==> mid <= end;
    var tryCi := end + 1;
    while tryCi > ci
      invariant ci <= tryCi <= end + 1
      invariant forall mid: nat, to: nat :: tryCi <= mid <= end ==> !PatternReaches(tables, text, pat, nextPi, mid, to)
    {
      tryCi := tryCi - 1;
      var found := RegexMatchAt(tables, text, pat, tryCi, nextPi);
      if found.Some? {
        assert Run(matcher, text, ci, tryCi);
        forall mid: nat, to: nat | Run(matcher, text, ci, mid) && PatternReaches(tables, text, pat, nextPi, mid, to)
          ensures to <= found.value
        {
          assert mid <= tryCi;
          LatestStartIsLongest(tables, text, pat, nextPi, mid, tryCi, found);
        }
        return found;
      }
    }
    result := None;
  }

  // ----- Regular expressions: anchors --------------------------------------------------------

  datatype Anchored = Anchored(body: string, atStart: bool, atEnd: bool)

  /** The anchors are exactly a leading '^' and a trailing '$' that no backslash precedes; the
      body is what is left between them. */
  function ParseAnchors(pattern: string): (parsed: Anchored)
    ensures pattern == (if parsed.atStart then "^" else "") + parsed.body + (if parsed.atEnd then "$" else "")
    ensures parsed.atStart <==> "^" <= pattern
    ensures parsed.atEnd <==>
              |pattern| > 0 && pattern[|pattern| - 1] == '$' && !(|pattern| > 1 && pattern[|pattern| - 2] == '\\')
  {
    var start := |pattern| > 0 && pattern[0] == '^';
    var end := |pattern| > 0 && pattern[|pattern| - 1] == '$'
               && !(|pattern| > 1 && pattern[|pattern| - 2..] == "\\$");
    var p := if start then pattern[1..] else pattern;
    Anchored(if end && p != [] then p[..|p| - 1] else p, start, end)
  }

  /** Some substring under the anchors is matched. */
  ghost predicate AnchoredMatch(tables: Tables, text: string, parsed: Anchored) {
    exists from: nat, to: nat ::
      && from <= to <= |text|
      && PatternReaches(tables, text, parsed.body, 0, from, to)
      && (parsed.atStart ==> from == 0)
      && (parsed.atEnd ==> to == |text|)
  }

  ghost predicate RegexHolds(tables: Tables, text: string, pattern: string) {
    AnchoredMatch(tables, text, ParseAnchors(pattern))
  }

  lemma MatchesInText(tables: Tables, text: string, pat: string)
    ensures forall from: nat, to: nat :: from <= |text| && PatternReaches(tables, text, pat, 0, from, to) ==> from <= to <= |text|
  {
    hide PatternReaches, Tokenize, Reaches;
    TokensReachPattern(tables, text, pat, 0);
    forall from: nat, to: nat | from <= |text| && PatternReaches(tables, text, pat, 0, from, to)
      ensures from <= to <= |text|
    {
      assert TokensReach(tables, text, pat, 0, from, to);
      ReachesInText(Tokenize(tables, pat, 0).value, text, from, to);
    }
  }

  method Regex(tables: Tables, text: string, pattern: string) returns (matched: bool)
    ensures matched <==> RegexHolds(tables, text, pattern)
  {
    var Anchored(pat, atStart, atEnd) := ParseAnchors(pattern);
    hide Tokenize, Reaches, PatternReaches, ParseAnchors;
    MatchesInText(tables, text, pat);
    if atStart {
      var found := RegexMatchAt(tables, text, pat, 0, 0);
      return if atEnd then found == Some(|text|) else found.Some?;
    }
    for start := 0 to |text| + 1
      invariant forall from: nat, to: nat :: from < start && PatternReaches(tables, text, pat, 0, from, to)
                  ==> atEnd && to != |text|
    {
      var found := RegexMatchAt(tables, text, pat, start, 0);
      if found.Some? {
        if !atEnd || found.value == |text| {
          return true;
        }
      }
    }
    return false;
  }

  // ----- Regular expressions: when a trailing '$' is an anchor --------------------------------

  /** How many backslashes the text ends in. */
  function TrailingBackslashes(s: string): (n: nat)
    ensures n <= |s|
  {
    if s != [] && s[|s| - 1] == '\\' then TrailingBackslashes(s[..|s| - 1]) + 1 else 0
  }

  predicate EndsInDollar(pattern: string) {
    pattern != [] && pattern[|pattern| - 1] == '$'
  }

  function WithoutLast(pattern: string): string
    requires pattern != []
  {
    pattern[..|pattern| - 1]
  }

  /** The pattern behind a leading '^'. */
  function BehindStart(pattern: string): string {
    if "^" <= pattern then pattern[1..] else pattern
  }

  /** The trailing '$' is a token of its own: it adds one item to those of the pattern before it.
      An escaped '$', or one inside a class, adds none. */
  predicate OwnDollar(tables: Tables, pattern: string) {
    && EndsInDollar(pattern)
    && var all := Tokenize(tables, pattern, 0);
       var before := Tokenize(tables, WithoutLast(pattern), 0);
       all.Some? && before.Some? && |all.value| == |before.value| + 1
  }

  lemma {:induction false} TrailingOfConcat(left: string, right: string)
    ensures TrailingBackslashes(left + right)
         == if TrailingBackslashes(right) == |right| then |right| + TrailingBackslashes(left)
            else TrailingBackslashes(right)
  {
    var all := left + right;
    if right == [] {
      assert all == left;
    } else {
      assert all[..|all| - 1] == left + right[..|right| - 1];
      TrailingOfConcat(left, right[..|right| - 1]);
    }
  }

  lemma {:induction false} ClassEndBefore(pat: string, from: nat, last: nat)
    requires from <= last <= |pat| && ClassEnd(pat, from) < last
    ensures ClassEnd(pat[..last], from) == ClassEnd(pat, from)
    decreases |pat| - from
  {
    if pat[from] != ']' {
      ClassEndBefore(pat, from + 1, last);
    }
  }

  /** A token that ends before the last character is read the same without that character. */
  lemma TokenBeforeLast(tables: Tables, pat: string, pi: nat)
    requires ParseToken(tables, pat, pi).Some? && pi + ParseToken(tables, pat, pi).value.length < |pat|
    ensures ParseToken(tables, WithoutLast(pat), pi) == ParseToken(tables, pat, pi)
  {
    var less := WithoutLast(pat);
    if pat[pi] == '[' {
      var negate := pi + 1 < |pat| && pat[pi + 1] == '^';
      var start: nat := if negate then pi + 2 else pi + 1;
      var end := ClassEnd(pat, start);
      ClassEndBefore(pat, start, |pat| - 1);
      assert less[start..end] == pat[start..end];
    }
  }

  /** A token that ends before the last character leaves an even number of backslashes. */
  lemma TokenTrailing(tables: Tables, pat: string, pi: nat, next: nat)
    requires ParseToken(tables, pat, pi).Some? && pi + ParseToken(tables, pat, pi).value.length < |pat|
    requires next == pi + ParseToken(tables, pat, pi).value.length
    ensures TrailingBackslashes(pat[pi..next]) % 2 == 0
  {
    var piece := pat[pi..next];
    if pat[pi] == '\\' {
      assert piece == [pat[pi], pat[pi + 1]] && piece[..1] == [pat[pi]] && piece[..1][..0] == [];
    } else {
      assert piece[|piece| - 1] == pat[next - 1] != '\\';
    }
  }

  /** One token, its quantifier, and the items of the rest. */
  lemma TokenizeStep(tables: Tables, pat: string, pi: nat, rest: nat)
    requires pi < |pat| && ParseToken(tables, pat, pi).Some?
    requires var next := pi + ParseToken(tables, pat, pi).value.length;
      rest == if QuantifierAt(pat, next) == Once then next else next + 1
    ensures var token := ParseToken(tables, pat, pi).value;
            var items := Tokenize(tables, pat, rest);
      Tokenize(tables, pat, pi)
      == if items.None? then None
         else Some([Item(token.matcher, QuantifierAt(pat, pi + token.length))] + items.value)
  {
  }

  /** `all` is `before`, and one plain item more when `own` holds. */
  ghost predicate GainsItem(all: seq<Item>, before: seq<Item>, own: bool) {
    if own then |all| == |before| + 1 && all == before + [Item(all[|before|].matcher, Once)]
    else |all| == |before|
  }

  lemma GainsItemBehind(head: Item, all: seq<Item>, before: seq<Item>, own: bool)
    requires GainsItem(all, before, own)
    ensures GainsItem([head] + all, [head] + before, own)
  {
    if own {
      assert ([head] + all)[|[head] + before|] == all[|before|];
    }
  }

  /** From a token boundary on: an even number of backslashes before the '$' makes it one more
      item, an odd number escapes it. */
  lemma {:induction false} DollarItems(tables: Tables, pat: string, pi: nat, last: nat)
    requires EndsInDollar(pat) && last == |pat| - 1 && pi <= last && Tokenize(tables, pat, pi).Some?
    ensures Tokenize(tables, WithoutLast(pat), pi).Some?
    ensures GainsItem(Tokenize(tables, pat, pi).value, Tokenize(tables, WithoutLast(pat), pi).value,
                      TrailingBackslashes(pat[pi..last]) % 2 == 0)
    decreases |pat| - pi
  {
    hide *;
    TokenOfRead(tables, pat, pi);
    if pi == last {
      LoneDollar(tables, pat, pi);
    } else if pi + ParseToken(tables, pat, pi).value.length == |pat| {
      EscapedDollar(tables, pat, pi, last);
      GainsNone(Tokenize(tables, pat, pi).value, Tokenize(tables, WithoutLast(pat), pi).value);
    } else {
      TokenBeforeLast(tables, pat, pi);
      var token := ParseToken(tables, pat, pi).value;
      var next := pi + token.length;
      TokenTrailing(tables, pat, pi, next);
      var quantifier := QuantifierAt(pat, next);
      var rest := if quantifier == Once then next else next + 1;
      QuantifierBeforeLast(pat, next, last);
      TokenizeStep(tables, pat, pi, rest);
      TokenizeStep(tables, WithoutLast(pat), pi, rest);
      DollarItems(tables, pat, rest, last);
      TrailingBeyond(pat, pi, next, rest, last);
      GainsItemBehind(Item(token.matcher, quantifier), Tokenize(tables, pat, rest).value,
                      Tokenize(tables, WithoutLast(pat), rest).value, TrailingBackslashes(pat[rest..last]) % 2 == 0);
    }
  }

  lemma GainsNone(all: seq<Item>, before: seq<Item>)
    requires |all| == |before|
    ensures GainsItem(all, before, false)
  {}

  lemma TokenOfRead(tables: Tables, pat: string, pi: nat)
    requires pi < |pat| && Tokenize(tables, pat, pi).Some?
    ensures ParseToken(tables, pat, pi).Some?
  {}

  /** A quantifier in front of the last '$' is no backslash and is read without the '$' too. */
  lemma QuantifierBeforeLast(pat: string, next: nat, last: nat)
    requires EndsInDollar(pat) && last == |pat| - 1 && next <= last
    ensures |WithoutLast(pat)| == last && QuantifierAt(WithoutLast(pat), next) == QuantifierAt(pat, next)
    ensures QuantifierAt(pat, next) != Once ==> next < last && pat[next] != '\\'
  {}

  /** At the '$' itself it is the one item left. */
  lemma LoneDollar(tables: Tables, pat: string, last: nat)
    requires EndsInDollar(pat) && last == |pat| - 1
    ensures Tokenize(tables, pat, last).Some? && Tokenize(tables, WithoutLast(pat), last) == Some([])
    ensures GainsItem(Tokenize(tables, pat, last).value, [], true)
    ensures TrailingBackslashes(pat[last..last]) == 0
  {
    TokenizeStep(tables, pat, last, last + 1);
  }

  /** A token that takes in the '$' is a backslash and the '$'. */
  lemma EscapedDollar(tables: Tables, pat: string, pi: nat, last: nat)
    requires EndsInDollar(pat) && last == |pat| - 1 && pi < last
    requires ParseToken(tables, pat, pi).Some? && pi + ParseToken(tables, pat, pi).value.length == |pat|
    ensures TrailingBackslashes(pat[pi..last]) == 1
    ensures Tokenize(tables, pat, pi).Some? && |Tokenize(tables, pat, pi).value| == 1
    ensures Tokenize(tables, WithoutLast(pat), pi).Some? && |Tokenize(tables, WithoutLast(pat), pi).value| == 1
  {
    assert pat[pi] == '\\' && last == pi + 1;
    assert pat[pi..last] == ['\\'] && pat[pi..last][..0] == [];
  }

  /** Tokens with an even number of trailing backslashes do not change the parity behind them. */
  lemma TrailingBeyond(pat: string, pi: nat, next: nat, rest: nat, last: nat)
    requires pi <= next <= rest <= last <= |pat|
    requires TrailingBackslashes(pat[pi..next]) % 2 == 0
    requires rest == next || (rest == next + 1 && pat[next] != '\\')
    ensures TrailingBackslashes(pat[pi..last]) % 2 == TrailingBackslashes(pat[rest..last]) % 2
  {
    assert pat[pi..rest] + pat[rest..last] == pat[pi..last];
    TrailingOfConcat(pat[pi..rest], pat[rest..last]);
    if rest == next + 1 {
      assert pat[pi..rest][|pat[pi..rest]| - 1] == pat[next];
    }
  }

  /** The source takes a trailing '$' for an anchor exactly when no backslash precedes it. That
      agrees with the tokens exactly when the number of backslashes before it is zero or odd, or,
      inside a class that is never closed, when it is not zero. */
  lemma AnchorAgreesExactly(tables: Tables, pattern: string)
    requires EndsInDollar(pattern)
    ensures var backslashes := TrailingBackslashes(WithoutLast(pattern));
            var openClass := Tokenize(tables, BehindStart(pattern), 0).None?;
      && (OwnDollar(tables, BehindStart(pattern)) <==> !openClass && backslashes % 2 == 0)
      && ((ParseAnchors(pattern).atEnd <==> OwnDollar(tables, BehindStart(pattern)))
          <==> if openClass then backslashes > 0 else backslashes == 0 || backslashes % 2 == 1)
  {
    var p := BehindStart(pattern);
    TrailingBehindStart(pattern);
    if Tokenize(tables, p, 0).Some? {
      DollarItems(tables, p, 0, |p| - 1);
      assert p[0..|p| - 1] == WithoutLast(p);
    }
    hide Tokenize;
    var before := WithoutLast(pattern);
    assert TrailingBackslashes(before) > 0 <==> before != [] && before[|before| - 1] == '\\';
  }

  lemma TrailingBehindStart(pattern: string)
    requires EndsInDollar(pattern)
    ensures EndsInDollar(BehindStart(pattern))
    ensures TrailingBackslashes(WithoutLast(pattern)) == TrailingBackslashes(WithoutLast(BehindStart(pattern)))
  {
    var p := BehindStart(pattern);
    if "^" <= pattern {
      assert WithoutLast(pattern) == ['^'] + WithoutLast(p);
      TrailingOfConcat(['^'], WithoutLast(p));
    }
  }

  /** The anchors the tokens mean: a trailing '$' is one whenever it is a token of its own. */
  function MeantAnchors(tables: Tables, pattern: string): (parsed: Anchored) {
    var p := BehindStart(pattern);
    var atEnd := OwnDollar(tables, p);
    Anchored(if atEnd then WithoutLast(p) else p, "^" <= pattern, atEnd)
  }

  ghost predicate RegexMeans(tables: Tables, text: string, pattern: string) {
    AnchoredMatch(tables, text, MeantAnchors(tables, pattern))
  }

  /** Each item that has to consume a character can. */
  ghost predicate Matchable(items: seq<Item>) {
    forall i :: 0 <= i < |items| && Mandatory(items[i]) ==> exists c :: items[i].matcher(c)
  }

  predicate Mandatory(item: Item) { item.quantifier == Once || item.quantifier == Plus }

  function MandatoryCount(items: seq<Item>): nat {
    if items == [] then 0 else (if Mandatory(items[0]) then 1 else 0) + MandatoryCount(items[1..])
  }

  /** What is matched is matchable, and at least as long as the items that have to consume. */
  lemma {:induction false} ReachesMatchable(items: seq<Item>, text: string, from: nat, to: nat)
    requires Reaches(items, text, from, to)
    ensures Matchable(items) && to >= from + MandatoryCount(items)
  {
    if items != [] {
      var mid: nat :| Step(items[0], text, from, mid) && Reaches(items[1..], text, mid, to);
      ReachesMatchable(items[1..], text, mid, to);
      if Mandatory(items[0]) {
        assert items[0].matcher(text[from]);
      }
      forall i | 0 <= i < |items| && Mandatory(items[i]) ensures exists c :: items[i].matcher(c) {
        if i > 0 {
          assert items[i] == items[1..][i - 1];
        }
      }
    }
  }

  /** The shortest text matchable items match: one character for each that has to consume. */
  lemma {:induction false} ShortestText(items: seq<Item>, before: string) returns (text: string)
    requires Matchable(items)
    ensures |text| == MandatoryCount(items)
    ensures Reaches(items, before + text, |before|, |before| + |text|)
  {
    if items == [] {
      text := [];
    } else {
      forall i | 0 <= i < |items[1..]| && Mandatory(items[1..][i]) ensures exists c :: items[1..][i].matcher(c) {
        assert items[1..][i] == items[i + 1];
      }
      if Mandatory(items[0]) {
        var c :| items[0].matcher(c);
        var rest := ShortestText(items[1..], before + [c]);
        text := [c] + rest;
        assert (before + [c]) + rest == before + text;
        assert Step(items[0], before + text, |before|, |before| + 1);
      } else {
        text := ShortestText(items[1..], before);
        assert Step(items[0], before + text, |before|, |before|);
      }
    }
  }

  /** The items of a pattern whose trailing '$' is an item of its own. */
  lemma OwnDollarItems(tables: Tables, p: string, all: seq<Item>, before: seq<Item>)
    requires OwnDollar(tables, p)
    requires all == Tokenize(tables, p, 0).value && before == Tokenize(tables, WithoutLast(p), 0).value
    ensures MandatoryCount(all) == MandatoryCount(before) + 1
    ensures Matchable(all) ==> Matchable(before)
  {
    DollarItems(tables, p, 0, |p| - 1);
    MandatoryCountAppend(before, all[|before|]);
    if Matchable(all) {
      forall i | 0 <= i < |before| && Mandatory(before[i]) ensures exists c :: before[i].matcher(c) {
        assert before[i] == all[i];
      }
    }
  }

  lemma {:induction false} MandatoryCountAppend(items: seq<Item>, item: Item)
    ensures MandatoryCount(items + [item]) == MandatoryCount(items) + if Mandatory(item) then 1 else 0
  {
    if items == [] {
      assert [item][1..] == [];
    } else {
      assert (items + [item])[1..] == items[1..] + [item];
      MandatoryCountAppend(items[1..], item);
    }
  }

  /** A '$' behind an even, positive number of backslashes is left in the body as a character. */
  predicate DollarMisread(tables: Tables, pattern: string) {
    && EndsInDollar(pattern)
    && Tokenize(tables, BehindStart(pattern), 0).Some?
    && TrailingBackslashes(WithoutLast(pattern)) > 0
    && TrailingBackslashes(WithoutLast(pattern)) % 2 == 0
  }

  /** Some text matches the items of the pattern. */
  ghost predicate Satisfiable(tables: Tables, pattern: string) {
    var items := Tokenize(tables, pattern, 0);
    items.Some? && Matchable(items.value)
  }

  /** A class left open in the whole pattern is open without the last character too. */
  lemma {:induction false} OpenClassStays(tables: Tables, pat: string, pi: nat)
    requires EndsInDollar(pat) && pi < |pat| && Tokenize(tables, pat, pi).None?
    ensures Tokenize(tables, WithoutLast(pat), pi).None?
    decreases |pat| - pi
  {
    var token := ParseToken(tables, pat, pi);
    if token.None? {
      UnclosedStays(tables, pat, pi);
    } else {
      var next := pi + token.value.length;
      var rest := if QuantifierAt(pat, next) == Once then next else next + 1;
      TokenizeStep(tables, pat, pi, rest);
      TokenBeforeLast(tables, pat, pi);
      TokenizeStep(tables, WithoutLast(pat), pi, rest);
      OpenClassStays(tables, pat, rest);
    }
  }

  lemma UnclosedStays(tables: Tables, pat: string, pi: nat)
    requires EndsInDollar(pat) && pi < |pat| && ParseToken(tables, pat, pi).None?
    ensures pi < |pat| - 1 && ParseToken(tables, WithoutLast(pat), pi).None?
  {
    var less := WithoutLast(pat);
    var start: nat := if pi + 1 < |pat| && pat[pi + 1] == '^' then pi + 2 else pi + 1;
    assert forall k :: start <= k < |pat| ==> pat[start..][k - start] == pat[k] != ']';
  }

  /** The anchors decide the answer: where they agree with the tokens, so do the answers. */
  lemma SameAnchorsSameAnswer(tables: Tables, text: string, pattern: string)
    requires ParseAnchors(pattern).atEnd <==> OwnDollar(tables, BehindStart(pattern))
    ensures RegexHolds(tables, text, pattern) <==> RegexMeans(tables, text, pattern)
  {
    hide Tokenize;
    assert ParseAnchors(pattern) == MeantAnchors(tables, pattern);
  }

  /** A misread '$' is a token of its own and stays in the body. */
  lemma MisreadAnchors(tables: Tables, pattern: string)
    requires DollarMisread(tables, pattern)
    ensures OwnDollar(tables, BehindStart(pattern))
    ensures ParseAnchors(pattern) == Anchored(BehindStart(pattern), "^" <= pattern, false)
  {
    AnchorAgreesExactly(tables, pattern);
  }

  /** Wherever the '$' is read rightly, every text is answered as the tokens mean it. */
  lemma RightAnswers(tables: Tables, text: string, pattern: string)
    requires !DollarMisread(tables, pattern)
    ensures RegexHolds(tables, text, pattern) <==> RegexMeans(tables, text, pattern)
  {
    if EndsInDollar(pattern) {
      AnchorAgreesExactly(tables, pattern);
    }
    if ParseAnchors(pattern).atEnd <==> OwnDollar(tables, BehindStart(pattern)) {
      SameAnchorsSameAnswer(tables, text, pattern);
    } else {
      OpenClassAnswers(tables, text, pattern);
    }
  }

  /** With a class left open there is no match, whichever way the '$' is read. */
  lemma OpenClassAnswers(tables: Tables, text: string, pattern: string)
    requires EndsInDollar(pattern) && Tokenize(tables, BehindStart(pattern), 0).None?
    ensures !RegexHolds(tables, text, pattern) && !RegexMeans(tables, text, pattern)
  {
    var p := BehindStart(pattern);
    OpenClassStays(tables, p, 0);
    hide Tokenize, Reaches, PatternReaches;
    TokensReachPattern(tables, text, p, 0);
    TokensReachPattern(tables, text, WithoutLast(p), 0);
    assert !OwnDollar(tables, p);
    var body := ParseAnchors(pattern).body;
    assert body == p || body == WithoutLast(p);
    assert forall from: nat, to: nat :: !TokensReach(tables, text, body, 0, from, to);
    assert forall from: nat, to: nat :: !TokensReach(tables, text, p, 0, from, to);
    hide TokensReach;
  }

  /** Where it is misread, no text is answered with yes by both: the source asks for one more
      character than the shortest text has. */
  lemma WrongAnswer(tables: Tables, pattern: string) returns (text: string)
    requires DollarMisread(tables, pattern) && Satisfiable(tables, WithoutLast(BehindStart(pattern)))
    ensures RegexMeans(tables, text, pattern) && !RegexHolds(tables, text, pattern)
  {
    hide Tokenize, MandatoryCount, ParseAnchors, OwnDollar, DollarMisread, Satisfiable, BehindStart, WithoutLast;
    MisreadAnchors(tables, pattern);
    text := ShortestMatch(tables, BehindStart(pattern));
    hide PatternReaches;
    WholeTextMeant(tables, text, pattern);
    TooShort(tables, text, BehindStart(pattern));
  }

  lemma ShortestMatch(tables: Tables, p: string) returns (text: string)
    requires OwnDollar(tables, p) && Satisfiable(tables, WithoutLast(p))
    ensures PatternReaches(tables, text, WithoutLast(p), 0, 0, |text|)
    ensures Tokenize(tables, p, 0).Some? && |text| < MandatoryCount(Tokenize(tables, p, 0).value)
  {
    var all, before := Tokenize(tables, p, 0).value, Tokenize(tables, WithoutLast(p), 0).value;
    OwnDollarItems(tables, p, all, before);
    hide Tokenize, MandatoryCount, Matchable, Reaches, PatternReaches;
    text := ShortestText(before, "");
    assert "" + text == text;
    assert TokensReach(tables, text, WithoutLast(p), 0, 0, |text|);
    TokensReachPattern(tables, text, WithoutLast(p), 0);
  }

  lemma WholeTextMeant(tables: Tables, text: string, pattern: string)
    requires OwnDollar(tables, BehindStart(pattern))
    requires PatternReaches(tables, text, WithoutLast(BehindStart(pattern)), 0, 0, |text|)
    ensures RegexMeans(tables, text, pattern)
  {
    hide OwnDollar;
    var meant := MeantAnchors(tables, pattern);
    assert PatternReaches(tables, text, meant.body, 0, 0, |text|);
    hide PatternReaches;
  }

  /** No match in a text with fewer characters than items that have to consume one. */
  lemma TooShort(tables: Tables, text: string, p: string)
    requires Tokenize(tables, p, 0).Some? && |text| < MandatoryCount(Tokenize(tables, p, 0).value)
    ensures forall from: nat, to: nat | to <= |text| :: !PatternReaches(tables, text, p, 0, from, to)
  {
    hide Tokenize, MandatoryCount, Reaches, Matchable, PatternReaches;
    TokensReachPattern(tables, text, p, 0);
    forall from: nat, to: nat | to <= |text| ensures !PatternReaches(tables, text, p, 0, from, to) {
      if TokensReach(tables, text, p, 0, from, to) {
        ReachesMatchable(Tokenize(tables, p, 0).value, text, from, to);
      }
    }
  }

  /** Nothing matches on either reading when the pattern before the '$' is not satisfiable. */
  lemma NeverAnswered(tables: Tables, text: string, pattern: string)
    requires DollarMisread(tables, pattern) && !Satisfiable(tables, WithoutLast(BehindStart(pattern)))
    ensures !RegexHolds(tables, text, pattern) && !RegexMeans(tables, text, pattern)
  {
    var p := BehindStart(pattern);
    MisreadAnchors(tables, pattern);
    var all, before := Tokenize(tables, p, 0).value, Tokenize(tables, WithoutLast(p), 0).value;
    OwnDollarItems(tables, p, all, before);
    hide Tokenize, Reaches, MandatoryCount, ParseAnchors, Matchable, PatternReaches;
    TokensReachPattern(tables, text, p, 0);
    TokensReachPattern(tables, text, WithoutLast(p), 0);
    forall from: nat, to: nat
      ensures !TokensReach(tables, text, p, 0, from, to) && !TokensReach(tables, text, WithoutLast(p), 0, from, to)
    {
      if TokensReach(tables, text, p, 0, from, to) {
        ReachesMatchable(all, text, from, to);
      }
      if TokensReach(tables, text, WithoutLast(p), 0, from, to) {
        ReachesMatchable(before, text, from, to);
      }
    }
    hide TokensReach;
  }

  /** Every text is answered as the tokens of the pattern mean it, unless the '$' stands behind an
      even, positive number of backslashes and some text matches what precedes it; then some text
      is answered wrongly. */
  lemma RegexMeansExactly(tables: Tables, pattern: string)
    ensures (forall text :: RegexHolds(tables, text, pattern) <==> RegexMeans(tables, text, pattern))
       <==> !(DollarMisread(tables, pattern) && Satisfiable(tables, WithoutLast(BehindStart(pattern))))
  {
    if !DollarMisread(tables, pattern) {
      forall text ensures RegexHolds(tables, text, pattern) <==> RegexMeans(tables, text, pattern) {
        RightAnswers(tables, text, pattern);
      }
    } else if Satisfiable(tables, WithoutLast(BehindStart(pattern))) {
      var text := WrongAnswer(tables, pattern);
    } else {
      forall text ensures RegexHolds(tables, text, pattern) <==> RegexMeans(tables, text, pattern) {
        NeverAnswered(tables, text, pattern);
      }
    }
  }

  /** Two backslashes are one item, and the '$' behind them another. */
  lemma EscapedBackslashItems(tables: Tables) returns (backslash: Item, dollar: Item)
    ensures backslash.quantifier == dollar.quantifier == Once
    ensures forall c :: (backslash.matcher(c) <==> c == '\\') && (dollar.matcher(c) <==> c == '$')
    ensures Tokenize(tables, "\\\\", 0) == Some([backslash])
    ensures Tokenize(tables, "\\\\$", 0) == Some([backslash, dollar])
  {
    var pattern := "\\\\$";
    backslash := Item(ParseToken(tables, "\\\\", 0).value.matcher, Once);
    dollar := Item(ParseToken(tables, pattern, 2).value.matcher, Once);
    TokenizeStep(tables, "\\\\", 0, 2);
    assert Tokenize(tables, "\\\\", 2) == Some([]) && [backslash] + [] == [backslash];
    assert WithoutLast(pattern) == "\\\\";
    TokenBeforeLast(tables, pattern, 0);
    TokenizeStep(tables, pattern, 0, 2);
    TokenizeStep(tables, pattern, 2, 3);
    hide ParseToken;
    assert Tokenize(tables, pattern, 3) == Some([]);
    assert Tokenize(tables, pattern, 2) == Some([dollar] + []) && [dollar] + [] == [dollar];
    assert [backslash] + [dollar] == [backslash, dollar];
  }

  lemma OneItem(item: Item, text: string, from: nat, to: nat)
    ensures Reaches([item], text, from, to) <==> Step(item, text, from, to)
  {
    assert [item][1..] == [];
    if Step(item, text, from, to) {
      assert Reaches([item][1..], text, to, to);
    }
  }

  /** An escaped backslash and a '$': the lone backslash should match and does not, and a
      backslash in front of a dollar sign should not match and does. */
  lemma EscapedBackslashIsMisread(tables: Tables)
    ensures var pattern := "\\\\$";
      && DollarMisread(tables, pattern)
      && RegexMeans(tables, "\\", pattern) && !RegexHolds(tables, "\\", pattern)
      && RegexHolds(tables, "\\$", pattern) && !RegexMeans(tables, "\\$", pattern)
  {
    var pattern := "\\\\$";
    var backslash, dollar := EscapedBackslashItems(tables);
    assert WithoutLast(pattern) == "\\\\" && WithoutLast("\\\\") == "\\" && WithoutLast("\\") == "";
    assert TrailingBackslashes("\\") == 1;
    assert BehindStart(pattern) == pattern;
    MisreadAnchors(tables, pattern);
    hide Tokenize, ParseAnchors, OwnDollar, DollarMisread, BehindStart, WithoutLast;
    hide PatternReaches;
    forall text: string, from: nat, to: nat
      ensures PatternReaches(tables, text, "\\\\", 0, from, to) <==> Step(backslash, text, from, to)
      ensures PatternReaches(tables, text, pattern, 0, from, to)
         <==> exists mid: nat :: Step(backslash, text, from, mid) && Step(dollar, text, mid, to)
    {
      ReachedByTokens(tables, text, "\\\\", 0, from, to);
      ReachedByTokens(tables, text, pattern, 0, from, to);
      OneItem(backslash, text, from, to);
      TwoItems(backslash, dollar, text, from, to);
    }
    assert Step(backslash, "\\", 0, 1) && PatternReaches(tables, "\\", "\\\\", 0, 0, 1);
    WholeTextMeant(tables, "\\", pattern);
    assert Step(backslash, "\\$", 0, 1) && Step(dollar, "\\$", 1, 2);
    assert PatternReaches(tables, "\\$", pattern, 0, 0, 2);
    assert forall from: nat :: !Step(backslash, "\\$", from, 2);
  }

  lemma TwoItems(first: Item, second: Item, text: string, from: nat, to: nat)
    ensures Reaches([first, second], text, from, to)
       <==> exists mid: nat :: Step(first, text, from, mid) && Step(second, text, mid, to)
  {
    assert [first, second][1..] == [second];
    forall mid: nat ensures Reaches([second], text, mid, to) <==> Step(second, text, mid, to) {
      OneItem(second, text, mid, to);
    }
  }
}
