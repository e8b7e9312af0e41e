/** NewsPost (apps/news/models.py): the slug a post receives on its first save and the
    tag list read from its comma-separated tags. `slugify(title)` is Django's function and
    an input here; the stored posts are the rows the collision query sees. */
module News {
  import opened Wrappers
  import opened Text

  // ---------------------------------------------------------------------------
  // Slugs

  /** The longest prefix of the slugified title that becomes the base. */
  const SlugBaseLength := 240
  /** The base used when the title slugifies to nothing. */
  const DefaultSlugBase := "post"

  /** slugify(self.title)[:240] or "post". */
  function SlugBase(slugified: string): (r: string)
    ensures r != [] && |r| <= SlugBaseLength
    ensures slugified == [] ==> r == DefaultSlugBase
    ensures slugified != [] ==> r <= slugified && (r == slugified || |r| == SlugBaseLength)
  {
    var cut := if |slugified| <= SlugBaseLength then slugified else slugified[..SlugBaseLength];
    if cut == [] then DefaultSlugBase else cut
  }

  /** The `n`-th slug tried: the base first, then f"{base}-{i}" for i = 2, 3, ... */
  function Candidate(base: string, n: nat): string {
    if n < 2 then base else base + "-" + NatToString(n)
  }

  /** Different attempts try different slugs, so the loop never retries one. */
  lemma CandidateInjective(base: string, m: nat, n: nat)
    requires 1 <= m && 1 <= n && Candidate(base, m) == Candidate(base, n)
    ensures m == n
  {
    if m >= 2 && n >= 2 {
      var c := Candidate(base, m);
      assert NatToString(m) == c[|base| + 1..];
      assert NatToString(n) == c[|base| + 1..];
    }
  }

  /** The slugs tried before the `n`-th. */
  ghost function Tried(base: string, n: nat): set<string> {
    set j | 1 <= j < n :: Candidate(base, j)
  }

  /** Each attempt adds one slug not tried before. */
  lemma TriedNext(base: string, n: nat)
    requires n >= 1
    ensures Candidate(base, n) !in Tried(base, n)
    ensures Tried(base, n + 1) == Tried(base, n) + {Candidate(base, n)}
  {
    if Candidate(base, n) in Tried(base, n) {
      var j :| 1 <= j < n && Candidate(base, j) == Candidate(base, n);
      CandidateInjective(base, j, n);
    }
  }

  /** A stored post as the collision query sees it. */
  datatype StoredPost = StoredPost(pk: nat, slug: string)

  /** NewsPost.objects.filter(slug=s).exclude(pk=pk).exists(): another post holds `s`.
      Excluding a missing primary key excludes no row. */
  predicate Taken(rows: seq<StoredPost>, pk: Option<nat>, s: string) {
    exists k :: 0 <= k < |rows| && rows[k].slug == s && (pk.None? || rows[k].pk != pk.value)
  }

  /** The slugs held by posts other than `pk`. */
  ghost function OtherSlugs(rows: seq<StoredPost>, pk: Option<nat>): (r: set<string>)
    ensures forall s :: s in r <==> Taken(rows, pk, s)
  {
    set k | 0 <= k < |rows| && (pk.None? || rows[k].pk != pk.value) :: rows[k].slug
  }

  /** The slug the loop settles on: free, and the base when the base is free, otherwise the
      first free f"{base}-{i}" from i = 2 upwards. */
  ghost predicate FirstFreeSlug(rows: seq<StoredPost>, pk: Option<nat>, base: string, s: string) {
    !Taken(rows, pk, s) &&
    if !Taken(rows, pk, base) then s == base
    else exists i :: 2 <= i && s == Candidate(base, i) &&
                     forall j :: 2 <= j < i ==> Taken(rows, pk, Candidate(base, j))
  }

  /** At most one slug is the first free one. */
  lemma FirstFreeSlugUnique(rows: seq<StoredPost>, pk: Option<nat>, base: string, s1: string, s2: string)
    requires FirstFreeSlug(rows, pk, base, s1) && FirstFreeSlug(rows, pk, base, s2)
    ensures s1 == s2
  {
    if Taken(rows, pk, base) {
      var i1 :| 2 <= i1 && s1 == Candidate(base, i1) &&
                forall j :: 2 <= j < i1 ==> Taken(rows, pk, Candidate(base, j));
      var i2 :| 2 <= i2 && s2 == Candidate(base, i2) &&
                forall j :: 2 <= j < i2 ==> Taken(rows, pk, Candidate(base, j));
    }
  }

  /** The while loop of save: tries the base, then base-2, base-3, ... until no other post
      holds the slug. It stops because every slug it rejects is held by another post and
      is never tried again. */
  method UniqueSlug(rows: seq<StoredPost>, pk: Option<nat>, base: string) returns (slug: string)
    ensures FirstFreeSlug(rows, pk, base, slug)
  {
    ghost var others := OtherSlugs(rows, pk);
    slug := base;
    var i := 2;
    while Taken(rows, pk, slug)
      invariant i >= 2 && slug == Candidate(base, i - 1)
      invariant forall j :: 1 <= j < i - 1 ==> Taken(rows, pk, Candidate(base, j))
      invariant Tried(base, i - 1) <= others
      decreases others - Tried(base, i - 1)
    {
      TriedNext(base, i - 1);
      slug := base + "-" + NatToString(i);
      i := i + 1;
    }
    if i > 2 {
      assert Taken(rows, pk, Candidate(base, 1));
      assert forall j :: 2 <= j < i - 1 ==> Taken(rows, pk, Candidate(base, j));
    }
  }

  // ---------------------------------------------------------------------------
  // Saving a post

  predicate UniquePks(rows: seq<StoredPost>) {
    forall a, b :: 0 <= a < b < |rows| ==> rows[a].pk != rows[b].pk
  }

  /** The unique constraint on NewsPost.slug. */
  predicate UniqueSlugs(rows: seq<StoredPost>) {
    forall a, b :: 0 <= a < b < |rows| ==> rows[a].slug != rows[b].slug
  }

  /** super().save(): the row with primary key `pk` takes the slug, or a row is inserted. */
  function Persisted(rows: seq<StoredPost>, pk: nat, slug: string): (r: seq<StoredPost>)
    ensures exists k :: 0 <= k < |r| && r[k] == StoredPost(pk, slug)
    ensures forall k :: 0 <= k < |r| && r[k].pk != pk ==> r[k] in rows
  {
    if exists k :: 0 <= k < |rows| && rows[k].pk == pk then
      var r := seq(|rows|, k requires 0 <= k < |rows| => if rows[k].pk == pk then StoredPost(pk, slug) else rows[k]);
      var k :| 0 <= k < |rows| && rows[k].pk == pk;
      assert r[k] == StoredPost(pk, slug);
      r
    else
      var r := rows + [StoredPost(pk, slug)];
      assert r[|rows|] == StoredPost(pk, slug);
      r
  }

  /** Storing a slug no other post holds keeps slugs and primary keys unique. */
  lemma PersistedUnique(rows: seq<StoredPost>, pk: nat, slug: string)
    requires UniquePks(rows) && UniqueSlugs(rows) && !Taken(rows, Some(pk), slug)
    ensures var r := Persisted(rows, pk, slug);
            UniquePks(r) && UniqueSlugs(r)
  {
    var r := Persisted(rows, pk, slug);
    if exists k :: 0 <= k < |rows| && rows[k].pk == pk {
      assert |r| == |rows|;
      forall a, b | 0 <= a < b < |r|
        ensures r[a].pk != r[b].pk && r[a].slug != r[b].slug
      {
        if rows[a].pk != pk && rows[b].pk != pk {
          assert r[a] == rows[a] && r[b] == rows[b];
        } else if rows[a].pk == pk {
          assert r[b] == rows[b];
        } else {
          assert r[a] == rows[a];
        }
      }
    } else {
      forall a, b | 0 <= a < b < |r|
        ensures r[a].pk != r[b].pk && r[a].slug != r[b].slug
      {
        if b < |rows| {
          assert r[a] == rows[a] && r[b] == rows[b];
        } else {
          assert r[a] == rows[a];
        }
      }
    }
  }

  class NewsPost {
    var pk: Option<nat>
    var title: string
    var slug: string
    var tags: Option<string>

    /** A post not yet saved. */
    constructor(title: string, slug: string, tags: Option<string>)
      ensures this.pk.None? && this.title == title && this.slug == slug && this.tags == tags
    {
      this.pk := None;
      this.title := title;
      this.slug := slug;
      this.tags := tags;
    }

    /** save(): a post without a slug takes the first free one built from its title
        (`slugified` is slugify(self.title)); then the row is stored, under `newPk`, the key
        the database assigns, when the post has none yet. The result is the new table. */
    method Save(rows: seq<StoredPost>, slugified: string, newPk: nat) returns (stored: seq<StoredPost>)
      requires pk.None? ==> forall k :: 0 <= k < |rows| ==> rows[k].pk != newPk
      modifies this
      ensures old(slug) != [] ==> slug == old(slug)
      ensures old(slug) == [] ==> FirstFreeSlug(rows, old(pk), SlugBase(slugified), slug)
      ensures pk == Some(if old(pk).Some? then old(pk).value else newPk)
      ensures title == old(title) && tags == old(tags)
      ensures stored == Persisted(rows, pk.value, slug)
    {
      if slug == [] {
        var base := SlugBase(slugified);
        slug := UniqueSlug(rows, pk, base);
      }
      if pk.None? {
        pk := Some(newPk);
      }
      stored := Persisted(rows, pk.value, slug);
    }
  }

  /** A generated slug never collides: saving a post without a slug into a table with unique
      slugs and keys keeps both unique. */
  lemma GeneratedSlugUnique(rows: seq<StoredPost>, pk: Option<nat>, newPk: nat, base: string, slug: string)
    requires UniquePks(rows) && UniqueSlugs(rows)
    requires pk.None? ==> forall k :: 0 <= k < |rows| ==> rows[k].pk != newPk
    requires FirstFreeSlug(rows, pk, base, slug)
    ensures var id := if pk.Some? then pk.value else newPk;
            var r := Persisted(rows, id, slug);
            UniquePks(r) && UniqueSlugs(r)
  {
    var id := if pk.Some? then pk.value else newPk;
    PersistedUnique(rows, id, slug);
  }

  // ---------------------------------------------------------------------------
  // Tags

  /** Each piece stripped, the empty ones dropped, in order. */
  function StrippedNonEmpty(pieces: seq<string>): seq<string>
    decreases |pieces|
  {
    if pieces == [] then []
    else
      var t := Strip(pieces[0]);
      (if t != [] then [t] else []) + StrippedNonEmpty(pieces[1..])
  }

  /** A tag as tag_list yields it: non-empty, without edge whitespace and without a comma. */
  predicate CleanTag(t: string) {
    t != [] && !IsSpace(t[0]) && !IsSpace(t[|t| - 1]) && ',' !in t
  }

  lemma {:induction false} StrippedNonEmptyClean(pieces: seq<string>)
    requires forall k :: 0 <= k < |pieces| ==> ',' !in pieces[k]
    ensures forall k :: 0 <= k < |StrippedNonEmpty(pieces)| ==> CleanTag(StrippedNonEmpty(pieces)[k])
    decreases |pieces|
  {
    if pieces != [] {
      StrippedNonEmptyClean(pieces[1..]);
      var i, j := StripIsSlice(pieces[0]);
      assert forall c :: c in pieces[0][i..j] ==> c in pieces[0];
    }
  }

  /** Pieces that are already clean pass through unchanged. */
  lemma {:induction false} StrippedNonEmptyKeeps(pieces: seq<string>)
    requires forall k :: 0 <= k < |pieces| ==> CleanTag(pieces[k])
    ensures StrippedNonEmpty(pieces) == pieces
    decreases |pieces|
  {
    if pieces != [] {
      StrippedNonEmptyKeeps(pieces[1..]);
      StripNoEdges(pieces[0]);
      assert [pieces[0]] + pieces[1..] == pieces;
    }
  }

  lemma {:induction false} StrippedNonEmptyAppend(a: seq<string>, b: seq<string>)
    ensures StrippedNonEmpty(a + b) == StrippedNonEmpty(a) + StrippedNonEmpty(b)
    decreases |a|
  {
    if a == [] {
      assert a + b == b;
    } else {
      assert (a + b)[0] == a[0];
      assert (a + b)[1..] == a[1..] + b;
      StrippedNonEmptyAppend(a[1..], b);
    }
  }

  /** tag_list: the comma-separated pieces of the tags (of "" when there are none),
      stripped, without the empty ones. */
  function TagList(tags: Option<string>): (r: seq<string>)
    ensures forall k :: 0 <= k < |r| ==> CleanTag(r[k])
    ensures tags.None? || tags.value == [] ==> r == []
  {
    var s := if tags.Some? then tags.value else "";
    StrippedNonEmptyClean(Split(s, ','));
    StripNoEdges("");
    assert [""][1..] == [];
    StrippedNonEmpty(Split(s, ','))
  }

  /** Joining clean tags with commas and reading them back gives the same tags in the same
      order. */
  lemma TagListJoin(ts: seq<string>)
    requires forall k :: 0 <= k < |ts| ==> CleanTag(ts[k])
    ensures TagList(Some(Join(ts, ','))) == ts
  {
    if ts != [] {
      SplitJoin(ts, ',');
      StrippedNonEmptyKeeps(ts);
    }
  }

  /** The tags before a comma come first, in their order, then the tags after it. */
  lemma TagListConcat(a: string, b: string)
    ensures TagList(Some(a + "," + b)) == TagList(Some(a)) + TagList(Some(b))
  {
    SplitConcat(a, b, ',');
    StrippedNonEmptyAppend(Split(a, ','), Split(b, ','));
  }

  /** A piece that is only whitespace adds no tag. */
  lemma TagListBlank(a: string, b: string)
    requires AllSpace(b) && ',' !in b
    ensures TagList(Some(a + "," + b)) == TagList(Some(a))
  {
    TagListConcat(a, b);
    SplitNoSep(b, ',');
    assert Strip(b) == [] by {
      var i, j := StripIsSlice(b);
    }
    assert StrippedNonEmpty([b]) == [] by {
      assert [b][1..] == [];
    }
  }
}
