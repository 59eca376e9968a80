/**
 Slug derivation: `fileName.replace(".md", "")`. With a string pattern,
 JavaScript's `String.prototype.replace` replaces only the FIRST occurrence
 of the pattern, wherever it is; it does not strip a suffix.
 */
module Slugs {

  datatype Option<T> = None | Some(value: T)

  /** The markdown extension the slug derivation removes. */
  const Extension: string := ".md"

  /** `pat` occurs in `s` starting at index `i`. */
  predicate OccursAt(s: string, pat: string, i: int) {
    0 <= i && i + |pat| <= |s| && s[i..i + |pat|] == pat
  }

  predicate Contains(s: string, pat: string) {
    exists i :: 0 <= i <= |s| && OccursAt(s, pat, i)
  }

  /** `String.prototype.indexOf(pat, from)`: the first occurrence at or after `from`. */
  function IndexOfFrom(s: string, pat: string, from: nat): (r: Option<nat>)
    decreases |s| - from
    ensures r.Some? ==> from <= r.value && OccursAt(s, pat, r.value)
    ensures r.Some? ==> forall j :: from <= j < r.value ==> !OccursAt(s, pat, j)
    ensures r.None? ==> forall j :: from <= j ==> !OccursAt(s, pat, j)
  {
    if from + |pat| > |s| then None
    else if s[from..from + |pat|] == pat then Some(from)
    else IndexOfFrom(s, pat, from + 1)
  }

  /** `String.prototype.indexOf(pat)`: the first occurrence, if there is one. */
  function IndexOf(s: string, pat: string): (r: Option<nat>)
    ensures r.None? <==> !Contains(s, pat)
    ensures r.Some? ==> OccursAt(s, pat, r.value)
    ensures r.Some? ==> forall j :: 0 <= j < r.value ==> !OccursAt(s, pat, j)
  {
    IndexOfFrom(s, pat, 0)
  }

  /**
   `s.replace(pat, "")` with a string pattern: delete the first occurrence
   of `pat`. Without an occurrence the input comes back unchanged; with one,
   the result is shorter by `|pat|` and putting `pat` back at the index of
   the first occurrence restores the input.
   */
  function RemoveFirst(s: string, pat: string): (r: string)
    ensures !Contains(s, pat) ==> r == s
    ensures Contains(s, pat) ==> |r| == |s| - |pat|
    ensures IndexOf(s, pat).Some? ==>
      var i := IndexOf(s, pat).value;
      i <= |r| && s == r[..i] + pat + r[i..]
  {
    match IndexOf(s, pat)
    case None => s
    case Some(i) =>
      var r := s[..i] + s[i + |pat|..];
      assert r[..i] == s[..i] && r[i..] == s[i + |pat|..];
      assert s == s[..i] + s[i..i + |pat|] + s[i + |pat|..];
      r
  }

  /**
   The slug of a post file, in both `getAllPosts` and `getPost`: the name
   with its first ".md" deleted. A name without ".md" is its own slug; a
   name with one loses exactly its first occurrence, and the rest of the
   name stays in place around it.
   */
  function Slug(fileName: string): (r: string)
    ensures !Contains(fileName, Extension) ==> r == fileName
    ensures Contains(fileName, Extension) ==> |r| == |fileName| - |Extension|
    ensures Contains(fileName, Extension) ==> exists i ::
      && OccursAt(fileName, Extension, i)
      && (forall j :: 0 <= j < i ==> !OccursAt(fileName, Extension, j))
      && r == fileName[..i] + fileName[i + |Extension|..]
  {
    var r := RemoveFirst(fileName, Extension);
    if Contains(fileName, Extension) then
      var i := IndexOf(fileName, Extension).value;
      assert fileName == r[..i] + Extension + r[i..];
      assert fileName[..i] == r[..i];
      assert fileName[i + |Extension|..] == r[i..];
      r
    else
      r
  }

  /**
   ".md" cannot overlap itself, so when `name` has no ".md" the first
   occurrence in `name + ".md"` is the appended one.
   */
  lemma FirstExtensionOfAppended(name: string)
    requires !Contains(name, Extension)
    ensures IndexOf(name + Extension, Extension) == Some(|name|)
  {
    var s := name + Extension;
    assert s[|name|..] == Extension;
    assert OccursAt(s, Extension, |name|);
    forall j | 0 <= j < |name|
      ensures !OccursAt(s, Extension, j)
    {
      if j + 3 <= |name| {
        assert !OccursAt(name, Extension, j);
        assert s[j..j + 3] == name[j..j + 3];
      } else if j == |name| - 1 {
        assert s[j + 1] == Extension[0] != Extension[1];
      } else {
        assert s[j + 2] == Extension[0] != Extension[2];
      }
    }
  }

  /** The intended case: the slug of "<name>.md" is <name>. */
  lemma SlugOfMarkdownFile(name: string)
    requires !Contains(name, Extension)
    ensures Slug(name + Extension) == name
  {
    FirstExtensionOfAppended(name);
    assert (name + Extension)[..|name|] == name;
  }

  /** "a.md.md" keeps its second extension. */
  lemma SlugOfDoubleExtension()
    ensures Slug("a.md.md") == "a.md"
  {
    assert OccursAt("a.md.md", Extension, 1);
    assert "a.md.md"[0] == 'a';
  }

  /** ".md" is removed from the middle of a name, not only from its end. */
  lemma SlugOfInnerExtension()
    ensures Slug("x.mdx") == "xx"
  {
    assert OccursAt("x.mdx", Extension, 1);
    assert "x.mdx"[0] == 'x';
  }
}
