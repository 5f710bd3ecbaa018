/** The `underscore` template helper: two literal regular-expression
    replacements applied one after the other to a string of Unicode
    characters. */
module TemplateHelpers {

  /** The characters the class `[a-zA-Z0-9_-]` admits. */
  predicate IsAllowed(c: char) {
    ('a' <= c <= 'z') || ('A' <= c <= 'Z') || ('0' <= c <= '9') || c == '_' || c == '-'
  }

  /** The first replacement: every ' ' becomes '_', every other character is kept. */
  function ReplaceSpaces(s: string): (r: string)
    ensures |r| == |s|
    ensures forall i :: 0 <= i < |s| ==> r[i] == (if s[i] == ' ' then '_' else s[i])
  {
    if s == [] then [] else [if s[0] == ' ' then '_' else s[0]] + ReplaceSpaces(s[1..])
  }

  /** The second replacement: every character outside `[a-zA-Z0-9_-]` is
      replaced by the empty string. */
  function DeleteDisallowed(s: string): (r: string)
    ensures |r| <= |s|
    ensures forall i :: 0 <= i < |r| ==> IsAllowed(r[i])
  {
    if s == [] then [] else (if IsAllowed(s[0]) then [s[0]] else []) + DeleteDisallowed(s[1..])
  }

  /** The helper itself: never longer than its argument, and only letters,
      digits, '_' and '-' come out. */
  function Underscore(s: string): (r: string)
    ensures |r| <= |s|
    ensures forall i :: 0 <= i < |r| ==> IsAllowed(r[i])
  {
    DeleteDisallowed(ReplaceSpaces(s))
  }

  // ---------------------------------------------------------------------
  // An independent, one-pass reference: what each input character becomes.
  // ---------------------------------------------------------------------

  /** The output one character contributes: a space gives "_", an allowed
      character gives itself, anything else gives nothing. */
  function Translate(c: char): string {
    if c == ' ' then "_" else if IsAllowed(c) then [c] else []
  }

  /** Translate every character and concatenate, in input order. */
  function TranslateAll(s: string): string {
    if s == [] then [] else Translate(s[0]) + TranslateAll(s[1..])
  }

  /** The two-replacement helper equals the character-by-character reference. */
  lemma {:induction false} UnderscoreIsTranslateAll(s: string)
    ensures Underscore(s) == TranslateAll(s)
  {
    if s != [] {
      var c := if s[0] == ' ' then '_' else s[0];
      var t := ReplaceSpaces(s[1..]);
      assert ReplaceSpaces(s) == [c] + t;
      assert ([c] + t)[0] == c && ([c] + t)[1..] == t;
      assert DeleteDisallowed([c] + t) == (if IsAllowed(c) then [c] else []) + DeleteDisallowed(t);
      assert (if IsAllowed(c) then [c] else []) == Translate(s[0]);
      UnderscoreIsTranslateAll(s[1..]);
    }
  }

  /** The reference distributes over concatenation. */
  lemma {:induction false} TranslateAllAppend(a: string, b: string)
    ensures TranslateAll(a + b) == TranslateAll(a) + TranslateAll(b)
  {
    if a == [] {
      assert a + b == b;
    } else {
      assert (a + b)[0] == a[0] && (a + b)[1..] == a[1..] + b;
      TranslateAllAppend(a[1..], b);
    }
  }

  /** Order preservation: the helper of a concatenation is the concatenation
      of the helper of each piece, so no character moves past another. */
  lemma UnderscoreAppend(a: string, b: string)
    ensures Underscore(a + b) == Underscore(a) + Underscore(b)
  {
    UnderscoreIsTranslateAll(a + b);
    UnderscoreIsTranslateAll(a);
    UnderscoreIsTranslateAll(b);
    TranslateAllAppend(a, b);
  }

  /** A string is left unchanged exactly when it already consists of allowed
      characters only. */
  lemma {:induction false} UnderscoreFixpoint(s: string)
    ensures Underscore(s) == s <==> forall i :: 0 <= i < |s| ==> IsAllowed(s[i])
  {
    if forall i :: 0 <= i < |s| ==> IsAllowed(s[i]) {
      UnderscoreIsTranslateAll(s);
      AllowedTranslateAll(s);
    }
  }

  lemma {:induction false} AllowedTranslateAll(s: string)
    requires forall i :: 0 <= i < |s| ==> IsAllowed(s[i])
    ensures TranslateAll(s) == s
  {
    if s != [] {
      assert IsAllowed(s[0]);
      AllowedTranslateAll(s[1..]);
    }
  }

  /** Applying the helper twice gives the same result as applying it once. */
  lemma UnderscoreIdempotent(s: string)
    ensures Underscore(Underscore(s)) == Underscore(s)
  {
    UnderscoreFixpoint(Underscore(s));
  }

  /** Number of occurrences of `c` in `s`. */
  function Count(s: string, c: char): nat {
    if s == [] then 0 else (if s[0] == c then 1 else 0) + Count(s[1..], c)
  }

  lemma {:induction false} CountAppend(a: string, b: string, c: char)
    ensures Count(a + b, c) == Count(a, c) + Count(b, c)
  {
    if a == [] {
      assert a + b == b;
    } else {
      assert (a + b)[0] == a[0] && (a + b)[1..] == a[1..] + b;
      CountAppend(a[1..], b, c);
    }
  }

  /** What comes out, character by character: each '_' stands for an input
      '_' or an input ' ', each other allowed character occurs exactly as
      often as in the input, and no other character occurs at all. */
  lemma {:induction false} UnderscoreCount(s: string, c: char)
    ensures Count(Underscore(s), c) ==
      if c == '_' then Count(s, '_') + Count(s, ' ')
      else if IsAllowed(c) then Count(s, c)
      else 0
  {
    UnderscoreIsTranslateAll(s);
    TranslateAllCount(s, c);
  }

  lemma {:induction false} TranslateAllCount(s: string, c: char)
    ensures Count(TranslateAll(s), c) ==
      if c == '_' then Count(s, '_') + Count(s, ' ')
      else if IsAllowed(c) then Count(s, c)
      else 0
  {
    if s != [] {
      CountAppend(Translate(s[0]), TranslateAll(s[1..]), c);
      TranslateAllCount(s[1..], c);
      var t := Translate(s[0]);
      if t != [] {
        assert t[1..] == [];
      }
    }
  }

  /** The worked example: space to '_', '!' removed. */
  lemma UnderscoreExample()
    ensures Underscore("a b-c_d!") == "a_b-c_d"
  {
  }
}
