/**
  The element id derived from an exercise name in `renderExercise`
  (treino/treino.js): every character outside `a-z`, `A-Z`, `0-9` becomes
  an underscore. A `char` is a Unicode scalar value; names with
  characters outside the Basic Multilingual Plane are not modelled.
 */
module ExerciseId {

  predicate IsAsciiAlnum(c: char) {
    ('a' <= c <= 'z') || ('A' <= c <= 'Z') || ('0' <= c <= '9')
  }

  /** A character that may appear in a sanitized id. */
  predicate IsIdChar(c: char) {
    IsAsciiAlnum(c) || c == '_'
  }

  /** `name.replace(/[^a-zA-Z0-9]/g, '_')`. */
  function Sanitize(name: string): (id: string)
    ensures |id| == |name|
    ensures forall i :: 0 <= i < |id| ==> IsIdChar(id[i])
    ensures forall i :: 0 <= i < |id| ==> (id[i] == name[i] <==> IsIdChar(name[i]))
    ensures forall i :: 0 <= i < |id| ==> IsAsciiAlnum(name[i]) ==> id[i] == name[i]
    ensures forall i :: 0 <= i < |id| ==> !IsAsciiAlnum(name[i]) ==> id[i] == '_'
  {
    if |name| == 0 then []
    else [if IsAsciiAlnum(name[0]) then name[0] else '_'] + Sanitize(name[1..])
  }

  /** A name is its own id exactly when it uses only id characters. */
  lemma SanitizeFixedPoints(name: string)
    ensures Sanitize(name) == name <==> forall i :: 0 <= i < |name| ==> IsIdChar(name[i])
  {
    if forall i :: 0 <= i < |name| ==> IsIdChar(name[i]) {
      assert forall i :: 0 <= i < |name| ==> Sanitize(name)[i] == name[i];
    }
  }

  /** Sanitizing an id again changes nothing. */
  lemma SanitizeIdempotent(name: string)
    ensures Sanitize(Sanitize(name)) == Sanitize(name)
  {
    SanitizeFixedPoints(Sanitize(name));
  }

  /** Different names can share an id, so the id is not unique per
      exercise: "Leg Press" and "Leg-Press" both become "Leg_Press". */
  lemma SanitizeNotInjective()
    ensures "Leg" + [' '] + "Press" != "Leg" + ['-'] + "Press"
    ensures Sanitize("Leg" + [' '] + "Press") == Sanitize("Leg" + ['-'] + "Press") == "Leg_Press"
  {
    LegPress(' ');
    LegPress('-');
    assert ("Leg" + [' '] + "Press")[3] == ' ';
  }

  lemma LegPress(c: char)
    requires !IsAsciiAlnum(c)
    ensures Sanitize("Leg" + [c] + "Press") == "Leg_Press"
  {
    AlnumWords();
    SeparatorBecomesUnderscore("Leg", c, "Press");
    assert "Leg" + ['_'] + "Press" == "Leg_Press";
  }

  lemma AlnumWords()
    ensures forall i :: 0 <= i < |"Leg"| ==> IsAsciiAlnum("Leg"[i])
    ensures forall i :: 0 <= i < |"Press"| ==> IsAsciiAlnum("Press"[i])
  {
  }

  /** Two id-safe words joined by any non-alphanumeric character become
      the words joined by an underscore. */
  lemma SeparatorBecomesUnderscore(a: string, c: char, b: string)
    requires forall i :: 0 <= i < |a| ==> IsAsciiAlnum(a[i])
    requires forall i :: 0 <= i < |b| ==> IsAsciiAlnum(b[i])
    requires !IsAsciiAlnum(c)
    ensures Sanitize(a + [c] + b) == a + ['_'] + b
  {
    SanitizeAppend(a + [c], b);
    SanitizeAppend(a, [c]);
    SanitizeFixedPoints(a);
    SanitizeFixedPoints(b);
    assert Sanitize(a) == a && Sanitize(b) == b;
    assert Sanitize([c]) == ['_'];
    calc {
      Sanitize(a + [c] + b);
      Sanitize(a + [c]) + Sanitize(b);
      Sanitize(a) + Sanitize([c]) + Sanitize(b);
    }
  }

  /** Sanitizing works character by character. */
  lemma {:induction false} SanitizeAppend(a: string, b: string)
    ensures Sanitize(a + b) == Sanitize(a) + Sanitize(b)
    decreases |a|
  {
    if |a| > 0 {
      assert (a + b)[1..] == a[1..] + b;
      SanitizeAppend(a[1..], b);
    } else {
      assert a + b == b;
    }
  }
}
