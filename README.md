# Blogi post store: a verified model of the listing logic

Blogi keeps its blog posts as markdown files with frontmatter in one
directory. `src/lib/posts.ts` has two read operations:

- `getAllPosts` lists every post file. For each file it takes a slug from
  the file name and builds a plaintext snippet of the body. It then sorts
  the entries newest first by their frontmatter date.
- `getPost` reads one file and renders its body to HTML.

Most of that file is file-system I/O and calls into libraries. This project
models the file's own logic as pure Dafny functions, with proofs about them:

- `snippets.dfy`, module `Snippets`: the snippet. Every character of
  `#*_-[]` is deleted. A plaintext longer than 150 characters is cut to
  150 characters and gets `"..."` appended.
- `slugs.dfy`, module `Slugs`: the slug, `fileName.replace(".md", "")`.
  With a string pattern, JavaScript's `replace` deletes only the first
  `".md"`, wherever it is. So `"a.md.md"` gives `"a.md"` and `"x.mdx"` gives
  `"xx"`. The model has `IndexOf` (first occurrence) and `RemoveFirst`.
- `posts.dfy`, module `Posts`: the listing. `.map` builds one entry
  `{slug, fileName, data, snippet}` per file name. `.sort` orders entries
  with the comparator `dateB - dateA`. `Array.prototype.sort` is stable
  (ECMAScript 2019 and later), so the sort is modelled as a stable
  insertion sort. The proofs show that the result:
  - is newest first;
  - is a permutation of the mapped entries;
  - keeps entries with the same date in directory order;
  - is the only sequence with these three properties.
  `getPost` is modelled too; only its slug line has logic of its own.

The model receives these as inputs:

- the directory listing, as the sequence `fileNames`;
- reading and parsing one file, as a function `load` from a file name to
  `Parsed(data, content)`;
- the markdown renderer, as a function `render`;
- each date, as an integer timestamp (what `getTime()` returns).

## Model

| member | source | states |
|---|---|---|
| `Snippets.StripMarkup` | src/lib/posts.ts:19 | The result has no `#*_-[]` character. Every other character occurs in it exactly as often as in the body. It is no longer than the body, and exactly as long precisely when the body had no markup. |
| `Snippets.StripMarkupOfPlain` | src/lib/posts.ts:19 | Stripping a text that has no markup returns it unchanged. |
| `Snippets.StripMarkupIdempotent` | src/lib/posts.ts:19 | Stripping the plaintext again leaves it unchanged. |
| `Snippets.StripMarkupFixedPoints` | src/lib/posts.ts:19 | Stripping leaves a text unchanged if and only if it has no markup. |
| `Snippets.StripMarkupAppend` | src/lib/posts.ts:19 | Stripping a concatenation gives the concatenation of the stripped parts. Kept characters therefore stay in their original order. |
| `Snippets.StripMarkupChar` | src/lib/posts.ts:19 | On one character, stripping deletes a markup character and keeps any other. |
| `Snippets.Snippet` | src/lib/posts.ts:20-23 | A plaintext over 150 characters gives a 153-character result: its first 150 characters, then `"..."`. A plaintext of at most 150 characters is returned unchanged. |
| `Snippets.SnippetLength` | src/lib/posts.ts:20-23 | A snippet has at most 153 characters. It has exactly 153 if and only if the plaintext was longer than 150. |
| `Snippets.SnippetIdempotent` | src/lib/posts.ts:20-23 | Cutting a snippet a second time changes nothing. |
| `Snippets.BodySnippet` | src/lib/posts.ts:19-23 | The snippet of a body has at most 153 characters and contains no markup. It is the stripped body if that has at most 150 characters; otherwise it is the stripped body's first 150 characters followed by `"..."`. |
| `Snippets.BodySnippetOfShortPlain` | src/lib/posts.ts:19-23 | A body with no markup and at most 150 characters is its own snippet. |
| `Snippets.BodySnippetExample` | src/lib/posts.ts:19-23 | The snippet of `"# Hi"` is `" Hi"`. |
| `Slugs.IndexOfFrom` | src/lib/posts.ts:14 | Any index found is an occurrence at or after the start, with no occurrence between the start and it. "Not found" means there is no occurrence at or after the start. |
| `Slugs.IndexOf` | src/lib/posts.ts:14 | Nothing is found if and only if the pattern does not occur. A found index is the first occurrence. |
| `Slugs.RemoveFirst` | src/lib/posts.ts:14 | Without an occurrence, the input is returned unchanged. With one, the result is shorter by the pattern's length. Inserting the pattern back at the first occurrence's index gives the input again. |
| `Slugs.Slug` | src/lib/posts.ts:14 | The slug (the same expression as at line 40): a name with no `".md"` is its own slug. For a name that contains `".md"`, the slug is the name with its first `".md"` deleted, and is 3 characters shorter. |
| `Slugs.FirstExtensionOfAppended` | src/lib/posts.ts:40 | If `name` contains no `".md"`, the first `".md"` in `name + ".md"` is the appended one. |
| `Slugs.SlugOfMarkdownFile` | src/lib/posts.ts:40 | If `name` contains no `".md"`, the slug of `name + ".md"` is `name`. |
| `Slugs.SlugOfDoubleExtension` | src/lib/posts.ts:14 | The slug of `"a.md.md"` is `"a.md"`: the suffix is not stripped. |
| `Slugs.SlugOfInnerExtension` | src/lib/posts.ts:40 | The slug of `"x.mdx"` is `"xx"`: a `".md"` inside the name is deleted. |
| `Posts.MakeEntry` | src/lib/posts.ts:13-30 | An entry has its file's name and frontmatter, and the slug of that file name. Its snippet is the body's snippet, so it has at most 153 characters and no markup. |
| `Posts.MapEntries` | src/lib/posts.ts:12-31 | There is one entry per file name, in directory order, and entry `i` is built from file name `i`. |
| `Posts.Compare` | src/lib/posts.ts:32-36 | The comparator puts `a` no later than `b` (result `<= 0`) if and only if `a`'s date is not older than `b`'s. |
| `Posts.NewestFirstOrdered` | src/lib/posts.ts:32-36 | If the comparator accepts every neighbouring pair, every entry is at least as new as every later entry. |
| `Posts.Insert` | src/lib/posts.ts:32-36 | One insertion step keeps the old entries and adds the inserted one, as a multiset. The first element is either the inserted entry or the old first entry. |
| `Posts.InsertNewestFirst` | src/lib/posts.ts:32-36 | Inserting into a newest-first sequence keeps it newest first. |
| `Posts.SortNewestFirst` | src/lib/posts.ts:32-36 | The sorted sequence is newest first and is a permutation of its input. |
| `Posts.WithDateInsert` | src/lib/posts.ts:32-36 | Among the entries of its own date, an inserted entry comes first. Entries of other dates are unaffected. |
| `Posts.SortIsStable` | src/lib/posts.ts:32-36 | For every date, the entries with that date appear in the same relative order before and after sorting. |
| `Posts.FileNamesSorted` | src/lib/posts.ts:32-36 | Sorting keeps the multiset of file names. |
| `Posts.WithDateMembers` | src/lib/posts.ts:32-36 | The entries selected for a date are exactly the entries with that date. |
| `Posts.NewestFirstUnique` | src/lib/posts.ts:32-36 | Two newest-first sequences that agree, for every date, on the ordered entries with that date are equal. |
| `Posts.GetAllPosts` | src/lib/posts.ts:9-37 | The listing is newest first: the comparator accepts every neighbouring pair, and no entry is older than a later one. It is a permutation of the mapped entries. For each date, it keeps the entries with that date in directory order. |
| `Posts.ListingCoversDirectory` | src/lib/posts.ts:12-36 | The listing has exactly one entry per file name, counting repeats. Each entry is the one built from its own file. |
| `Posts.ListedSnippets` | src/lib/posts.ts:19-29 | Each listed entry's snippet is its own file's body with the markup stripped. It is the whole plaintext when that has at most 150 characters. Otherwise it is the first 150 characters followed by `"..."`, 153 characters in all. |
| `Posts.ListingIsDetermined` | src/lib/posts.ts:12-36 | Any sequence that is newest first and keeps each date's mapped entries in directory order equals the listing. |
| `Posts.ListingExample` | src/lib/posts.ts:32-36 | Entries dated 1 January, 1 March and 1 February 2024 are sorted as March, February, January. |
| `Posts.GetPost` | src/lib/posts.ts:39-55 | The post has the slug of its file name, the file's frontmatter, and the rendered body. |
| `Posts.GetPostAgreesWithListing` | src/lib/posts.ts:39-55 | For a listed file, the listing has an entry with the same slug and frontmatter that `getPost` returns. |

## Left out

- File-system access is not modelled: `fs.readdirSync`, `fs.readFileSync`, `path.join` and `process.cwd()`. The file names and a `load` function are parameters instead. A read error, such as a missing directory, is therefore not modelled.
- `gray-matter` frontmatter parsing is foreign code. Its result is the parameter `load`. The frontmatter object is modelled as a date plus a map of other string fields, which the model carries through unchanged.
- The `remark`/`remark-html` rendering is foreign code and asynchronous. It is the parameter `render`, and the `async`/`await` structure of `getPost` is dropped.
- JavaScript `Date` parsing and `getTime()` are not modelled. Each date is an integer timestamp. A missing or unparsable date gives `NaN` in JavaScript, which makes the comparator inconsistent; the model does not cover that case.
- Posts.Compare: the comparator subtracts IEEE doubles in JavaScript. The model uses exact integer subtraction. Rounding can change the value of a difference of two far-apart dates, but never its sign. The sort reads only the sign, and `Compare`'s contract states only the sign.
- Posts.SortNewestFirst: this is an insertion sort, not the engine's own algorithm. For a consistent comparator, any stable sort gives the same result, as `Posts.ListingIsDetermined` shows.
- Snippets.Snippet: lengths count Unicode scalar values. JavaScript's `length` and `substring` count UTF-16 code units. The two differ for characters outside the Basic Multilingual Plane, and `substring(0, 150)` can split a surrogate pair, which the model cannot express.
- Slugs.RemoveFirst: models `replace` only with an empty replacement string, which is the only one the source uses. `$` substitution patterns in a replacement string are not modelled.
- `src/lib/posts.ts` has no create, update, delete or raw-read operation, no default title and no current-time fallback for a missing date, so the model has none of them.
