/**
 Picking the JSON object out of an assistant reply
 (`extract_json_from_response` in assistant/assistant_interaction.py): the
 reply is searched with the regular expression `{.*?}` in DOTALL mode, and the
 matched text is handed to a JSON parser. A parser failure, like a missing
 match, yields `None`; nothing is raised to the caller.

 The JSON parser itself is a parameter `parse`, returning `None` where
 Python's `json.loads` would raise.
 */
module Extraction {
  import opened Common

  /**
   The text `s[i..j + 1]` is a match of `{.*?}` in DOTALL mode: it opens with
   `{`, closes with `}`, and `.` lets anything at all (newlines included) sit
   in between.
   */
  predicate MatchesAt(s: string, i: int, j: int)
  {
    0 <= i < j < |s| && s[i] == '{' && s[j] == '}'
  }

  /**
   The match `re.search` reports: the leftmost start position that has any
   match, and from there the shortest one, since `*?` is lazy.
   */
  ghost predicate SearchResult(s: string, i: int, j: int)
  {
    && MatchesAt(s, i, j)
    && (forall i', j' :: i' < i ==> !MatchesAt(s, i', j'))
    && (forall j' :: j' < j ==> !MatchesAt(s, i, j'))
  }

  /** The search result, when there is one, is unique. */
  lemma SearchResultUnique(s: string, i: int, j: int, i': int, j': int)
    requires SearchResult(s, i, j) && SearchResult(s, i', j')
    ensures i == i' && j == j'
  {
  }

  /** The first position at or after `from` holding `c`, or `|s|` if there is none. */
  function IndexFrom(s: string, c: char, from: nat): (r: nat)
    requires from <= |s|
    ensures from <= r <= |s|
    ensures r < |s| ==> s[r] == c
    ensures forall k :: from <= k < r ==> s[k] != c
    decreases |s| - from
  {
    if from == |s| then |s|
    else if s[from] == c then from
    else IndexFrom(s, c, from + 1)
  }

  /** The scan stops at the first `c` it meets. */
  lemma IndexFromFinds(s: string, c: char, from: nat, k: nat)
    requires from <= k < |s| && s[k] == c
    requires forall m :: from <= m < k ==> s[m] != c
    ensures IndexFrom(s, c, from) == k
  {
  }

  /**
   The bounds of the regular-expression match: the first `{` of the text and
   the first `}` after it. There is no match exactly when no `{` is followed,
   anywhere later, by a `}`.
   */
  function FindSpan(s: string): (r: Option<(nat, nat)>)
    ensures r.None? <==> forall i, j :: !MatchesAt(s, i, j)
    ensures r.Some? ==> SearchResult(s, r.value.0, r.value.1)
  {
    var i := IndexFrom(s, '{', 0);
    if i == |s| then None
    else
      var j := IndexFrom(s, '}', i + 1);
      if j == |s| then None
      else
        assert MatchesAt(s, i, j);
        Some((i, j))
  }

  /**
   `json_match.group(0)`: the matched text. It starts with `{`, ends with the
   only `}` it contains, and is present exactly when the text has a `{`
   followed later by a `}`.
   */
  function JsonSpan(s: string): (r: Option<string>)
    ensures r.Some? <==> exists i, j :: MatchesAt(s, i, j)
    ensures r.Some? ==> 2 <= |r.value| && r.value[0] == '{' && r.value[|r.value| - 1] == '}'
    ensures r.Some? ==> forall k :: 0 <= k < |r.value| - 1 ==> r.value[k] != '}'
    ensures forall i, j :: SearchResult(s, i, j) ==> r == Some(s[i..j + 1])
  {
    match FindSpan(s)
    case None => None
    case Some((i, j)) =>
      assert forall i', j' :: SearchResult(s, i', j') ==> i' == i && j' == j by {
        forall i', j' | SearchResult(s, i', j')
          ensures i' == i && j' == j
        {
          SearchResultUnique(s, i, j, i', j');
        }
      }
      Some(s[i..j + 1])
  }

  /**
   `extract_json_from_response`: `None` when there is no match; otherwise
   whatever the parser makes of the matched text, so a span that does not
   parse also yields `None`.
   */
  function ExtractJson<J>(response: string, parse: string -> Option<J>): (r: Option<J>)
    ensures (forall i, j :: !MatchesAt(response, i, j)) ==> r.None?
    ensures forall i, j :: SearchResult(response, i, j) ==> r == parse(response[i..j + 1])
  {
    match JsonSpan(response)
    case None => None
    case Some(span) => parse(span)
  }

  /**
   The span of a reply laid out as prose, `{`, a body without `}`, `}`, and
   anything after: exactly the braces and the body. The body may span several
   lines and may itself contain `{`.
   */
  lemma {:induction false} SpanOfSplice(pre: string, body: string, post: string)
    requires '{' !in pre && '}' !in body
    ensures JsonSpan(pre + "{" + body + "}" + post) == Some("{" + body + "}")
  {
    var s := pre + "{" + body + "}" + post;
    var i, j := |pre|, |pre| + 1 + |body|;
    assert s[i] == '{';
    assert forall m :: 0 <= m < i ==> s[m] == pre[m];
    IndexFromFinds(s, '{', 0, i);
    assert s[j] == '}';
    assert forall m :: i + 1 <= m < j ==> s[m] == body[m - i - 1];
    IndexFromFinds(s, '}', i + 1, j);
    assert s[i..j + 1] == "{" + body + "}";
  }

  /** Newlines inside the braces do not stop the match. */
  lemma MultiLineObjectIsFound(pre: string, a: string, b: string, post: string)
    requires '{' !in pre && '}' !in a && '}' !in b
    ensures JsonSpan(pre + "{" + a + "\n" + b + "}" + post) == Some("{" + a + "\n" + b + "}")
  {
    SpanOfSplice(pre, a + "\n" + b, post);
    assert pre + "{" + (a + "\n" + b) + "}" + post == pre + "{" + a + "\n" + b + "}" + post;
    assert "{" + (a + "\n" + b) + "}" == "{" + a + "\n" + b + "}";
  }

  /**
   A nested object is cut at its first inner `}`: what reaches the parser is
   the outer object's opening up to the inner object's end, without the outer
   closing brace. With a parser that rejects such text the result is `None`.
   */
  lemma NestedObjectIsCut<J>(pre: string, a: string, b: string, c: string, post: string,
                             parse: string -> Option<J>)
    requires '{' !in pre && '}' !in a && '}' !in b
    ensures JsonSpan(pre + "{" + a + "{" + b + "}" + c + "}" + post)
            == Some("{" + a + "{" + b + "}")
    ensures parse("{" + a + "{" + b + "}").None? ==>
              ExtractJson(pre + "{" + a + "{" + b + "}" + c + "}" + post, parse).None?
  {
    SpanOfSplice(pre, a + "{" + b, c + "}" + post);
    assert pre + "{" + (a + "{" + b) + "}" + (c + "}" + post)
        == pre + "{" + a + "{" + b + "}" + c + "}" + post;
    assert "{" + (a + "{" + b) + "}" == "{" + a + "{" + b + "}";
  }
}
