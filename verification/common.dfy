/**
 Shared vocabulary of the model: an optional value (Python's `None` versus a
 value) and Python's substring test `pat in text` on strings.
 */
module Common {

  /** A value that may be absent; `None` stands for Python's `None`. */
  datatype Option<+T> = None | Some(value: T)

  /** `pat` occurs in `text` starting at index `i`. */
  predicate OccursAt(pat: string, text: string, i: int)
  {
    0 <= i && i + |pat| <= |text| && text[i..i + |pat|] == pat
  }

  /** The reference meaning of a substring: some position where `pat` occurs. */
  ghost predicate Occurs(pat: string, text: string)
  {
    exists i :: OccursAt(pat, text, i)
  }

  /** Python's `pat in text` for two strings: a left-to-right scan. */
  function Contains(text: string, pat: string): bool
    decreases |text|
  {
    if pat <= text then true
    else if |text| == 0 then false
    else Contains(text[1..], pat)
  }

  /** The scan agrees with the reference meaning of a substring. */
  lemma {:induction false} ContainsIffOccurs(text: string, pat: string)
    ensures Contains(text, pat) <==> Occurs(pat, text)
    decreases |text|
  {
    if pat <= text {
      assert text[0..|pat|] == pat;
      assert OccursAt(pat, text, 0);
    } else if |text| == 0 {
    } else {
      ContainsIffOccurs(text[1..], pat);
      if Contains(text[1..], pat) {
        var i :| OccursAt(pat, text[1..], i);
        assert text[i + 1..i + 1 + |pat|] == text[1..][i..i + |pat|];
        assert OccursAt(pat, text, i + 1);
      }
      if Occurs(pat, text) {
        var i :| OccursAt(pat, text, i);
        assert i != 0;
        assert text[1..][i - 1..i - 1 + |pat|] == text[i..i + |pat|];
        assert OccursAt(pat, text[1..], i - 1);
      }
    }
  }

  /** Whatever surrounds it, a string occurs in a text it is spliced into. */
  lemma OccursInSplice(before: string, pat: string, after: string)
    ensures Occurs(pat, before + pat + after)
  {
    assert (before + pat + after)[|before|..|before| + |pat|] == pat;
    assert OccursAt(pat, before + pat + after, |before|);
  }

  /** An occurrence survives adding text on either side. */
  lemma OccursExtend(pat: string, x: string, y: string)
    requires Occurs(pat, x)
    ensures Occurs(pat, x + y) && Occurs(pat, y + x)
  {
    var i :| OccursAt(pat, x, i);
    assert (x + y)[i..i + |pat|] == x[i..i + |pat|];
    assert OccursAt(pat, x + y, i);
    assert (y + x)[|y| + i..|y| + i + |pat|] == x[i..i + |pat|];
    assert OccursAt(pat, y + x, |y| + i);
  }

  /** No element of `s` appears twice. */
  predicate NoDuplicates<T(==)>(s: seq<T>)
  {
    forall a, b :: 0 <= a < b < |s| ==> s[a] != s[b]
  }
}
