/**
 The plaintext preview that the post listing shows for every post: the
 markdown body with the markup characters `#*_-[]` deleted, cut to 150
 characters and marked with an ellipsis when it was longer.
 */
module Snippets {

  /** Longest plaintext kept in a snippet before it is cut. */
  const SnippetLimit: nat := 150

  /** Appended to a plaintext that was cut. */
  const Ellipsis: string := "..."

  /** The characters of the regular-expression class `[#*_\-\[\]]`. */
  predicate IsMarkup(c: char) {
    c == '#' || c == '*' || c == '_' || c == '-' || c == '[' || c == ']'
  }

  predicate NoMarkup(s: string) {
    forall i :: 0 <= i < |s| ==> !IsMarkup(s[i])
  }

  /**
   Global replacement of every markup character by the empty string.
   The result keeps every other character, in order, and no markup at all;
   it is as long as the input exactly when the input had no markup.
   */
  function StripMarkup(s: string): (r: string)
    ensures NoMarkup(r)
    ensures |r| <= |s|
    ensures |r| == |s| <==> NoMarkup(s)
    ensures forall c :: !IsMarkup(c) ==> multiset(r)[c] == multiset(s)[c]
  {
    if s == [] then []
    else
      var rest := StripMarkup(s[1..]);
      assert s == [s[0]] + s[1..];
      if IsMarkup(s[0]) then rest else [s[0]] + rest
  }

  /** Stripping a text without markup leaves it as it is. */
  lemma {:induction false} StripMarkupOfPlain(s: string)
    requires NoMarkup(s)
    ensures StripMarkup(s) == s
  {
    if s != [] {
      StripMarkupOfPlain(s[1..]);
    }
  }

  /** Stripping is idempotent. */
  lemma {:induction false} StripMarkupIdempotent(s: string)
    ensures StripMarkup(StripMarkup(s)) == StripMarkup(s)
  {
    StripMarkupOfPlain(StripMarkup(s));
  }

  /** A text is left unchanged by stripping exactly when it has no markup. */
  lemma {:induction false} StripMarkupFixedPoints(s: string)
    ensures StripMarkup(s) == s <==> NoMarkup(s)
  {
    if NoMarkup(s) {
      StripMarkupOfPlain(s);
    }
  }

  /**
   Stripping works character by character: stripping a concatenation is
   the concatenation of the stripped parts, so the kept characters stay
   in their original order.
   */
  lemma {:induction false} StripMarkupAppend(a: string, b: string)
    ensures StripMarkup(a + b) == StripMarkup(a) + StripMarkup(b)
  {
    if a == [] {
      assert a + b == b;
    } else {
      assert (a + b)[1..] == a[1..] + b;
      StripMarkupAppend(a[1..], b);
    }
  }

  /** What stripping does to one character: markup goes, anything else stays. */
  lemma StripMarkupChar(c: char)
    ensures StripMarkup([c]) == if IsMarkup(c) then [] else [c]
  {
    assert [c][1..] == [];
  }

  /**
   The ternary on the plaintext length: a plaintext longer than the limit
   becomes its first 150 characters followed by "...", one within the
   limit is returned as it is.
   */
  function Snippet(plain: string): (r: string)
    ensures |plain| > SnippetLimit ==>
      |r| == SnippetLimit + |Ellipsis| && r[..SnippetLimit] == plain[..SnippetLimit] && r[SnippetLimit..] == Ellipsis
    ensures |plain| <= SnippetLimit ==> r == plain
  {
    if |plain| > SnippetLimit then plain[..SnippetLimit] + Ellipsis else plain
  }

  /** A snippet never exceeds 153 characters, and has exactly 153 precisely when the plaintext was cut. */
  lemma SnippetLength(plain: string)
    ensures |Snippet(plain)| <= SnippetLimit + |Ellipsis|
    ensures |Snippet(plain)| == SnippetLimit + |Ellipsis| <==> |plain| > SnippetLimit
  {
  }

  /** Cutting a snippet again changes nothing. */
  lemma SnippetIdempotent(plain: string)
    ensures Snippet(Snippet(plain)) == Snippet(plain)
  {
    if |plain| > SnippetLimit {
      var r := Snippet(plain);
      assert r[..SnippetLimit] == plain[..SnippetLimit];
    }
  }

  /** The snippet of a post body: strip the markup, then cut. */
  function BodySnippet(body: string): (r: string)
    ensures |r| <= SnippetLimit + |Ellipsis|
    ensures NoMarkup(r)
    ensures |StripMarkup(body)| <= SnippetLimit ==> r == StripMarkup(body)
    ensures |StripMarkup(body)| > SnippetLimit ==>
      r == StripMarkup(body)[..SnippetLimit] + Ellipsis
  {
    Snippet(StripMarkup(body))
  }

  /** A short body without markup is its own snippet. */
  lemma BodySnippetOfShortPlain(body: string)
    requires NoMarkup(body) && |body| <= SnippetLimit
    ensures BodySnippet(body) == body
  {
    StripMarkupOfPlain(body);
  }

  /** A heading mark is deleted; the text after it, space included, stays. */
  lemma BodySnippetExample()
    ensures BodySnippet("# Hi") == " Hi"
  {
    var body := "# Hi";
    assert IsMarkup(body[0]) && body[1..] == " Hi";
    StripMarkupOfPlain(" Hi");
  }
}
