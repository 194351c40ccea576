/** What a regular expression of the MATCH operator says (crates/core/src/pattern_match.rs, lines 77-84).

  A pattern spells a list of pieces, each an atom under a quantifier. The spelling is given by writing the
  pieces down, the meaning by the characters each atom accepts; nothing here scans a pattern. */
module RegexSyntax {

  /** The Unicode tables the standard library consults; any tables will do. */
  datatype Tables = Tables(alphanumeric: char -> bool, whitespace: char -> bool)

  datatype Quantifier = Once | Star | Plus | Optional

  /** One part of a bracket class. */
  datatype ClassPart = Single(c: char) | Range(low: char, high: char)

  datatype Atom =
    | Any
    | Escape(escaped: char)
    | Class(negated: bool, parts: seq<ClassPart>)
    | Literal(c: char)

  datatype Piece = Piece(atom: Atom, quantifier: Quantifier)

  // ----- How pieces are written ----------------------------------------------------------------

  function PartText(part: ClassPart): string {
    match part
    case Single(c) => [c]
    case Range(low, high) => [low, '-', high]
  }

  function PartsText(parts: seq<ClassPart>): string {
    if parts == [] then "" else PartText(parts[0]) + PartsText(parts[1..])
  }

  function AtomText(atom: Atom): (text: string)
    ensures text != []
  {
    match atom
    case Any => "."
    case Escape(c) => ['\\', c]
    case Class(negated, parts) => "[" + (if negated then "^" else "") + PartsText(parts) + "]"
    case Literal(c) => [c]
  }

  function QuantifierText(quantifier: Quantifier): string {
    match quantifier
    case Once => ""
    case Star => "*"
    case Plus => "+"
    case Optional => "?"
  }

  function PieceText(piece: Piece): string { AtomText(piece.atom) + QuantifierText(piece.quantifier) }

  /** A single character is no start of a range. */
  ghost predicate PartsPlaced(parts: seq<ClassPart>) {
    parts != [] ==>
      && (parts[0].Single? ==> var text := PartsText(parts); !(|text| > 2 && text[1] == '-'))
      && PartsPlaced(parts[1..])
  }

  /** The piece is what its text says in front of `rest`: it has no other quantifier, its class ends at its
      first bracket and is negated if it can be, and its character stands for itself. */
  ghost predicate Placed(piece: Piece, rest: string) {
    && (piece.quantifier == Once ==> rest == [] || rest[0] !in {'*', '+', '?'})
    && match piece.atom
       case Any => true
       case Escape(_) => true
       case Class(negated, parts) =>
         PartsPlaced(parts) && ']' !in PartsText(parts) && (!negated ==> !("^" <= PartsText(parts)))
       case Literal(c) => c != '.' && c != '[' && (c == '\\' ==> piece.quantifier == Once && rest == [])
  }

  /** The pattern is the pieces written one after the other. */
  ghost predicate Spells(pieces: seq<Piece>, pattern: string) {
    if pieces == [] then pattern == []
    else
      var front := PieceText(pieces[0]);
      && front <= pattern
      && Placed(pieces[0], pattern[|front|..])
      && Spells(pieces[1..], pattern[|front|..])
  }

  // ----- What they mean ------------------------------------------------------------------------

  predicate IsDigit(c: char) { '0' <= c <= '9' }

  ghost predicate InPart(part: ClassPart, c: char) {
    match part
    case Single(d) => c == d
    case Range(low, high) => low <= c <= high
  }

  ghost predicate InParts(parts: seq<ClassPart>, c: char) {
    exists i :: 0 <= i < |parts| && InPart(parts[i], c)
  }

  predicate IsWord(tables: Tables, c: char) { tables.alphanumeric(c) || c == '_' }

  ghost predicate Accepts(tables: Tables, atom: Atom, c: char) {
    match atom
    case Any => true
    case Escape('d') => IsDigit(c)
    case Escape('D') => !IsDigit(c)
    case Escape('w') => IsWord(tables, c)
    case Escape('W') => !IsWord(tables, c)
    case Escape('s') => tables.whitespace(c)
    case Escape('S') => !tables.whitespace(c)
    case Escape(escaped) => c == escaped
    case Class(negated, parts) => negated != InParts(parts, c)
    case Literal(d) => c == d
  }

  /** The piece takes exactly the characters in [from, to). */
  ghost predicate Takes(tables: Tables, piece: Piece, text: string, from: nat, to: nat) {
    && from <= to <= |text|
    && (forall k :: from <= k < to ==> Accepts(tables, piece.atom, text[k]))
    && match piece.quantifier
       case Once => to == from + 1
       case Optional => to <= from + 1
       case Plus => from < to
       case Star => true
  }

  /** The pieces, in order, lead from position `from` to position `to`. */
  ghost predicate Lead(tables: Tables, pieces: seq<Piece>, text: string, from: nat, to: nat) {
    if pieces == [] then from == to
    else exists mid: nat :: Takes(tables, pieces[0], text, from, mid) && Lead(tables, pieces[1..], text, mid, to)
  }
}
