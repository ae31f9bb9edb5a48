/**
 What is left of the grammar: white space and the values that are no containers.
 */
module JsonLeaves {
  import opened JsonGrammar
  import opened TextAt
  import JsonNumbers
  import JsonStrings

  /** Section 2 of RFC 8259. */
  lemma SpaceMeaning(c: char)
    ensures IsSpace(c) <==> c in {0x20 as char, 0x09 as char, 0x0A as char, 0x0D as char}
  {
  }

  ghost predicate IsText(t: string, pos: nat, end: nat, s: string) {
    exists pieces :: JsonStrings.IsSpelling(t, pos, end, s, pieces)
  }

  /** A literal name, a string or a number. */
  ghost predicate IsLeaf(t: string, st: Settings, pos: nat, end: nat, e: Event) {
    match e
    case Null => At(t, pos, "null") && end == pos + 4
    case Bool(true) => At(t, pos, "true") && end == pos + 4
    case Bool(false) => At(t, pos, "false") && end == pos + 5
    case String(s) => At(t, pos, "\"") && IsText(t, pos + 1, end, s)
    case _ => exists p :: JsonNumbers.IsReading(t, st, pos, end, e, p)
  }

  lemma LeavesAreRead(t: string, st: Settings, pos: nat, end: nat, e: Event)
    ensures Scalar(t, st, pos) == Token(end, e) <==> IsLeaf(t, st, pos, end, e)
  {
    hide JsonStrings.IsSpelling;
    hide StringBody;
    hide Number;
    hide JsonNumbers.IsReading;
    NumberBegins(t, st, pos);
    FirstIs(t, pos, "null");
    FirstIs(t, pos, "true");
    FirstIs(t, pos, "false");
    FirstIs(t, pos, "\"");
    JsonNumbers.NumbersAreWritten(t, st, pos, end, e);
    if e.String? {
      JsonStrings.StringsAreSpelled(t, pos + 1, end, e.s);
    }
  }

  lemma FirstIs(t: string, pos: nat, word: string)
    requires word != []
    ensures At(t, pos, word) ==> pos < |t| && t[pos] == word[0]
    ensures |word| == 1 && pos < |t| && t[pos] == word[0] ==> At(t, pos, word)
  {
    if At(t, pos, word) {
      AtChar(t, pos, word, 0);
    }
  }

  /** Numbers begin like no other value, and are reported like no other. */
  lemma NumberBegins(t: string, st: Settings, pos: nat)
    ensures var r := Number(t, st, pos);
      r.Token? ==>
        && (Peek(t, pos) == '-' || IsDigit(Peek(t, pos)))
        && (r.value.Int? || r.value.Uint? || r.value.Int64? || r.value.Uint64? || r.value.Double?)
  {
  }
}
