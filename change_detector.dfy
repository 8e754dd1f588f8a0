/**
 * Change detection between two runs of the help-center sync: the state file
 * that remembers each article's content hash, the current state built from the
 * scraped articles, the classification of slugs into new, updated and deleted,
 * and the upload paths of the changed articles.
 *
 * The content hash (SHA-256 in the source) is the parameter `hash`; nothing is
 * assumed of it beyond being a function, so in particular not injectivity.
 */
module ChangeDetector {
  import opened Options
  import Scraper

  /** One entry of the state file. */
  datatype ArticleMetadata = ArticleMetadata(
    slug: string,
    contentHash: string,
    lastModified: string,
    filePath: string,
    url: string)

  /** A state: article metadata by slug. */
  type State = map<string, ArticleMetadata>

  /** The keys `build_current_state` reads from an article record; `updatedAt`
      is `None` when the record has no `updated_at` key. */
  datatype Article = Article(
    slug: string,
    markdownContent: string,
    url: string,
    updatedAt: Option<string>)

  /** The result of `detect_changes`. */
  datatype ChangeSet = ChangeSet(
    newSlugs: set<string>,
    updatedSlugs: set<string>,
    deletedSlugs: set<string>)

  const NoChanges: ChangeSet := ChangeSet({}, {}, {})

  // ---------------------------------------------------------------------------
  // Paths
  // ---------------------------------------------------------------------------

  /** The path recorded for, and uploaded for, an article: `scraped_articles/<slug>.md`. */
  function StatePath(slug: string): string {
    "scraped_articles/" + slug + ".md"
  }

  /** Distinct slugs have distinct paths. */
  lemma StatePathInjective(a: string, b: string)
    requires StatePath(a) == StatePath(b)
    ensures a == b
  {
    var p := StatePath(a);
    assert |a| == |b|;
    assert p[17..17 + |a|] == a;
    assert StatePath(b)[17..17 + |b|] == b;
  }

  // ---------------------------------------------------------------------------
  // The current state
  // ---------------------------------------------------------------------------

  /** The entry `build_current_state` makes for `article`, with `now` the clock reading of its iteration. */
  function Entry(article: Article, hash: string -> string, now: string): ArticleMetadata {
    ArticleMetadata(
      article.slug,
      hash(article.markdownContent),
      article.updatedAt.GetOr(now),
      StatePath(article.slug),
      article.url)
  }

  /** The slugs of `articles`. */
  function SlugsOf(articles: seq<Article>): set<string> {
    if articles == [] then {} else SlugsOf(articles[..|articles| - 1]) + {articles[|articles| - 1].slug}
  }

  /** A slug is in `SlugsOf(articles)` exactly when some article has it. */
  lemma {:induction false} SlugsOfMembers(articles: seq<Article>, s: string)
    ensures s in SlugsOf(articles) <==> exists i :: 0 <= i < |articles| && articles[i].slug == s
  {
    if articles != [] {
      var n := |articles| - 1;
      var prefix := articles[..n];
      SlugsOfMembers(prefix, s);
      if s in SlugsOf(prefix) {
        var i :| 0 <= i < n && prefix[i].slug == s;
        assert articles[i].slug == s;
      }
      if exists i :: 0 <= i < |articles| && articles[i].slug == s {
        var i :| 0 <= i < |articles| && articles[i].slug == s;
        if i < n {
          assert prefix[i].slug == s;
        }
      }
    }
  }

  /** The state `build_current_state` returns: the articles entered in order,
      a later article overwriting an earlier one with the same slug.
      `clock[i]` is the clock reading taken while entering `articles[i]`. */
  function CurrentState(articles: seq<Article>, hash: string -> string, clock: seq<string>): (state: State)
    requires |clock| == |articles|
    ensures state.Keys == SlugsOf(articles)
    ensures forall s :: s in state ==> state[s].slug == s && state[s].filePath == StatePath(s)
  {
    if articles == [] then map[]
    else
      var n := |articles| - 1;
      CurrentState(articles[..n], hash, clock[..n])[articles[n].slug := Entry(articles[n], hash, clock[n])]
  }

  /** No later article has the same slug as `articles[i]`. */
  predicate LastWithSlug(articles: seq<Article>, i: int)
    requires 0 <= i < |articles|
  {
    forall j :: i < j < |articles| ==> articles[j].slug != articles[i].slug
  }

  /** For duplicate slugs the last article wins. */
  lemma {:induction false} LastArticleWins(articles: seq<Article>, hash: string -> string, clock: seq<string>, i: int)
    requires |clock| == |articles|
    requires 0 <= i < |articles| && LastWithSlug(articles, i)
    ensures articles[i].slug in CurrentState(articles, hash, clock)
    ensures CurrentState(articles, hash, clock)[articles[i].slug] == Entry(articles[i], hash, clock[i])
  {
    var n := |articles| - 1;
    if i < n {
      var prefix, earlier := articles[..n], clock[..n];
      assert prefix[i] == articles[i] && earlier[i] == clock[i];
      forall j | i < j < n ensures prefix[j].slug != prefix[i].slug {
        assert prefix[j] == articles[j];
      }
      LastArticleWins(prefix, hash, earlier, i);
      assert articles[n].slug != articles[i].slug;
      assert CurrentState(articles, hash, clock)
        == CurrentState(prefix, hash, earlier)[articles[n].slug := Entry(articles[n], hash, clock[n])];
    }
  }

  /** Every entry is the entry of the last article with its slug; so its
      content hash is the hash of that article's content. */
  lemma {:induction false} EntryOfLastArticle(articles: seq<Article>, hash: string -> string, clock: seq<string>, s: string)
    returns (i: int)
    requires |clock| == |articles|
    requires s in CurrentState(articles, hash, clock)
    ensures 0 <= i < |articles| && articles[i].slug == s && LastWithSlug(articles, i)
    ensures CurrentState(articles, hash, clock)[s] == Entry(articles[i], hash, clock[i])
    ensures CurrentState(articles, hash, clock)[s].contentHash == hash(articles[i].markdownContent)
  {
    var n := |articles| - 1;
    var prefix, earlier := articles[..n], clock[..n];
    var before := CurrentState(prefix, hash, earlier);
    assert CurrentState(articles, hash, clock) == before[articles[n].slug := Entry(articles[n], hash, clock[n])];
    if articles[n].slug == s {
      i := n;
    } else {
      assert s in before;
      i := EntryOfLastArticle(prefix, hash, earlier, s);
      assert prefix[i] == articles[i] && earlier[i] == clock[i];
      LastInPrefix(articles, i);
    }
  }

  /** The last article with its slug among all but the final article stays
      the last one when the final article has another slug. */
  lemma LastInPrefix(articles: seq<Article>, i: int)
    requires 0 <= i < |articles| - 1
    requires LastWithSlug(articles[..|articles| - 1], i)
    requires articles[|articles| - 1].slug != articles[i].slug
    ensures LastWithSlug(articles, i)
  {
    var n := |articles| - 1;
    forall j | i < j < n ensures articles[j].slug != articles[i].slug {
      assert articles[..n][j] == articles[j] && articles[..n][i] == articles[i];
    }
  }

  /** `build_current_state`. */
  method BuildCurrentState(articles: seq<Article>, hash: string -> string, clock: seq<string>)
    returns (currentState: State)
    requires |clock| == |articles|
    ensures currentState == CurrentState(articles, hash, clock)
    ensures forall i :: 0 <= i < |articles| ==> articles[i].slug in currentState
    ensures forall i :: 0 <= i < |articles| && LastWithSlug(articles, i) ==>
      currentState[articles[i].slug] == Entry(articles[i], hash, clock[i])
  {
    currentState := map[];
    for i := 0 to |articles|
      invariant currentState == CurrentState(articles[..i], hash, clock[..i])
    {
      assert articles[..i + 1][..i] == articles[..i];
      assert clock[..i + 1][..i] == clock[..i];
      var article := articles[i];
      var slug := article.slug;
      var content := article.markdownContent;
      var contentHash := hash(content);
      currentState := currentState[slug := ArticleMetadata(
        slug,
        contentHash,
        article.updatedAt.GetOr(clock[i]),
        StatePath(slug),
        article.url)];
    }
    assert articles[..|articles|] == articles;
    assert clock[..|clock|] == clock;
    forall i | 0 <= i < |articles|
      ensures articles[i].slug in currentState
    {
      SlugsOfMembers(articles, articles[i].slug);
    }
    forall i | 0 <= i < |articles| && LastWithSlug(articles, i)
      ensures currentState[articles[i].slug] == Entry(articles[i], hash, clock[i])
    {
      LastArticleWins(articles, hash, clock, i);
    }
  }

  // ---------------------------------------------------------------------------
  // Classification
  // ---------------------------------------------------------------------------

  /** The classification `detect_changes` computes from the current and the previous state. */
  function Classify(current: State, previous: State): (c: ChangeSet)
    ensures c.newSlugs !! c.updatedSlugs && c.newSlugs !! c.deletedSlugs && c.updatedSlugs !! c.deletedSlugs
    ensures c.newSlugs + c.updatedSlugs <= current.Keys
    ensures c.updatedSlugs <= previous.Keys && c.deletedSlugs <= previous.Keys
  {
    ChangeSet(
      current.Keys - previous.Keys,
      (set s | s in current && s in previous && current[s].contentHash != previous[s].contentHash),
      previous.Keys - current.Keys)
  }

  /** The loop of `detect_changes` that collects the updated slugs. */
  method UpdatedSlugs(current: State, previous: State) returns (updatedSlugs: set<string>)
    ensures forall s :: s in updatedSlugs <==>
      s in current && s in previous && current[s].contentHash != previous[s].contentHash
    ensures updatedSlugs == Classify(current, previous).updatedSlugs
  {
    updatedSlugs := {};
    var todo := current.Keys * previous.Keys;
    while todo != {}
      invariant todo <= current.Keys * previous.Keys
      invariant forall s :: s in updatedSlugs <==>
        s in current && s in previous && s !in todo && current[s].contentHash != previous[s].contentHash
      decreases todo
    {
      var slug :| slug in todo;
      if current[slug].contentHash != previous[slug].contentHash {
        updatedSlugs := updatedSlugs + {slug};
      }
      todo := todo - {slug};
    }
  }

  /** Slugs in both states with equal content hashes: the ones left unreported. */
  function Unchanged(current: State, previous: State): set<string> {
    set s | s in current && s in previous && current[s].contentHash == previous[s].contentHash
  }

  /** Every slug of either state lands in exactly one of new, updated, deleted and unchanged. */
  lemma ClassifyPartitions(current: State, previous: State)
    ensures var c := Classify(current, previous);
      && current.Keys + previous.Keys == c.newSlugs + c.updatedSlugs + c.deletedSlugs + Unchanged(current, previous)
      && Unchanged(current, previous) !! c.newSlugs + c.updatedSlugs + c.deletedSlugs
  {
  }

  /** With no previous state every current slug is new. */
  lemma ClassifyFromNothing(current: State)
    ensures Classify(current, map[]) == ChangeSet(current.Keys, {}, {})
  {
  }

  /** With no current articles every previous slug is deleted. */
  lemma ClassifyNoArticles(previous: State, hash: string -> string)
    ensures Classify(CurrentState([], hash, []), previous) == ChangeSet({}, {}, previous.Keys)
  {
  }

  /** Two states with the same slugs and the same content hashes. */
  predicate SameFingerprints(a: State, b: State) {
    a.Keys == b.Keys && forall s :: s in a ==> a[s].contentHash == b[s].contentHash
  }

  lemma ClassifySameFingerprints(current: State, previous: State)
    requires SameFingerprints(current, previous)
    ensures Classify(current, previous) == NoChanges
  {
  }

  /** Which clock readings were taken does not change the slugs or the hashes. */
  lemma {:induction false} FingerprintsIgnoreClock(articles: seq<Article>, hash: string -> string, clock1: seq<string>, clock2: seq<string>)
    requires |clock1| == |articles| && |clock2| == |articles|
    ensures SameFingerprints(CurrentState(articles, hash, clock1), CurrentState(articles, hash, clock2))
  {
    if articles != [] {
      var n := |articles| - 1;
      FingerprintsIgnoreClock(articles[..n], hash, clock1[..n], clock2[..n]);
    }
  }

  /** A run over the same articles as the run before reports no changes. */
  lemma SecondRunReportsNothing(articles: seq<Article>, hash: string -> string, clock1: seq<string>, clock2: seq<string>)
    requires |clock1| == |articles| && |clock2| == |articles|
    ensures Classify(CurrentState(articles, hash, clock2), CurrentState(articles, hash, clock1)) == NoChanges
  {
    FingerprintsIgnoreClock(articles, hash, clock2, clock1);
    ClassifySameFingerprints(CurrentState(articles, hash, clock2), CurrentState(articles, hash, clock1));
  }

  /** `articles` with the slug of `articles[i]` replaced by `newSlug`. */
  function Renamed(articles: seq<Article>, i: int, newSlug: string): seq<Article>
    requires 0 <= i < |articles|
  {
    articles[i := articles[i].(slug := newSlug)]
  }

  /** `articles[i]` is the only article with its slug, and no article has `newSlug`. */
  predicate RenameApplies(articles: seq<Article>, i: int, newSlug: string) {
    && 0 <= i < |articles|
    && (forall j :: 0 <= j < |articles| && j != i ==> articles[j].slug != articles[i].slug)
    && (forall j :: 0 <= j < |articles| ==> articles[j].slug != newSlug)
  }

  /** Renaming one article swaps its old slug for the new one among the slugs. */
  lemma RenamedSlugs(articles: seq<Article>, i: int, newSlug: string)
    requires RenameApplies(articles, i, newSlug)
    ensures SlugsOf(Renamed(articles, i, newSlug)) == SlugsOf(articles) - {articles[i].slug} + {newSlug}
    ensures articles[i].slug in SlugsOf(articles) && newSlug !in SlugsOf(articles)
  {
    var renamed := Renamed(articles, i, newSlug);
    var former := articles[i].slug;
    SlugsOfMembers(articles, former);
    SlugsOfMembers(articles, newSlug);
    forall t ensures t in SlugsOf(renamed) <==> t in SlugsOf(articles) - {former} + {newSlug} {
      SlugsOfMembers(renamed, t);
      SlugsOfMembers(articles, t);
      if t == newSlug {
        assert renamed[i].slug == t;
      } else if t == former {
        forall j | 0 <= j < |renamed| ensures renamed[j].slug != former {
          if j != i {
            assert renamed[j] == articles[j];
          }
        }
      } else {
        if exists j :: 0 <= j < |articles| && articles[j].slug == t {
          var j :| 0 <= j < |articles| && articles[j].slug == t;
          assert renamed[j] == articles[j];
        }
        if exists j :: 0 <= j < |renamed| && renamed[j].slug == t {
          var j :| 0 <= j < |renamed| && renamed[j].slug == t;
          assert renamed[j] == articles[j];
        }
      }
    }
  }

  /** A slug present before and after the rename keeps its content hash. */
  lemma RenamedHashes(articles: seq<Article>, i: int, newSlug: string, hash: string -> string,
                      clock1: seq<string>, clock2: seq<string>, t: string)
    requires RenameApplies(articles, i, newSlug)
    requires |clock1| == |articles| && |clock2| == |articles|
    requires t in CurrentState(articles, hash, clock1)
    requires t in CurrentState(Renamed(articles, i, newSlug), hash, clock2)
    ensures CurrentState(Renamed(articles, i, newSlug), hash, clock2)[t].contentHash
      == CurrentState(articles, hash, clock1)[t].contentHash
  {
    var renamed := Renamed(articles, i, newSlug);
    SlugsOfMembers(articles, t);
    var j := EntryOfLastArticle(renamed, hash, clock2, t);
    assert j != i && renamed[j] == articles[j];
    forall k | j < k < |articles| ensures articles[k].slug != articles[j].slug {
      if k != i {
        assert renamed[k] == articles[k];
      }
    }
    LastArticleWins(articles, hash, clock1, j);
  }

  /** Identical content under a new slug is one new and one deleted article,
      never a rename, whatever the other articles are. */
  lemma RenameIsNewPlusDeleted(articles: seq<Article>, i: int, newSlug: string, hash: string -> string,
                               clock1: seq<string>, clock2: seq<string>)
    requires RenameApplies(articles, i, newSlug)
    requires |clock1| == |articles| && |clock2| == |articles|
    ensures Classify(CurrentState(Renamed(articles, i, newSlug), hash, clock2), CurrentState(articles, hash, clock1))
      == ChangeSet({newSlug}, {}, {articles[i].slug})
  {
    var current := CurrentState(Renamed(articles, i, newSlug), hash, clock2);
    var previous := CurrentState(articles, hash, clock1);
    RenamedSlugs(articles, i, newSlug);
    forall t | t in current && t in previous ensures current[t].contentHash == previous[t].contentHash {
      RenamedHashes(articles, i, newSlug, hash, clock1, clock2, t);
    }
    ClassifySwap(current, previous, articles[i].slug, newSlug);
  }

  /** States that differ only in one slug traded for another, with equal hashes
      on the common slugs, classify as that one new and that one deleted slug. */
  lemma ClassifySwap(current: State, previous: State, former: string, newSlug: string)
    requires former in previous && newSlug !in previous
    requires current.Keys == previous.Keys - {former} + {newSlug}
    requires forall t :: t in current && t in previous ==> current[t].contentHash == previous[t].contentHash
    ensures Classify(current, previous) == ChangeSet({newSlug}, {}, {former})
  {
    var c := Classify(current, previous);
    assert c.updatedSlugs == {};
    assert c.newSlugs == {newSlug};
    assert c.deletedSlugs == {former};
  }

  /** Previous state {a: hash("x"), b: hash("y")} against current articles
      a: "x", b: "z", c: "w" gives new {c}, updated {b}, deleted {}. */
  lemma ThreeArticleScenario(hash: string -> string, clock: seq<string>, earlier: string, url: string)
    requires |clock| == 3
    requires hash("y") != hash("z")
    ensures
      var previous := map[
        "a" := ArticleMetadata("a", hash("x"), earlier, StatePath("a"), url),
        "b" := ArticleMetadata("b", hash("y"), earlier, StatePath("b"), url)];
      var articles := [Article("a", "x", url, None), Article("b", "z", url, None), Article("c", "w", url, None)];
      Classify(CurrentState(articles, hash, clock), previous) == ChangeSet({"c"}, {"b"}, {})
  {
    var previous := map[
      "a" := ArticleMetadata("a", hash("x"), earlier, StatePath("a"), url),
      "b" := ArticleMetadata("b", hash("y"), earlier, StatePath("b"), url)];
    var a0, a1, a2 := Article("a", "x", url, None), Article("b", "z", url, None), Article("c", "w", url, None);
    var articles := [a0, a1, a2];
    assert articles[..2] == [a0, a1];
    assert [a0, a1][..1] == [a0];
    assert [a0][..0] == [];
    assert clock[..2][..1] == clock[..1];
    var s1 := CurrentState([a0], hash, clock[..1]);
    assert s1 == map["a" := Entry(a0, hash, clock[0])];
    var s2 := CurrentState([a0, a1], hash, clock[..2]);
    assert s2 == s1["b" := Entry(a1, hash, clock[1])];
    var current := CurrentState(articles, hash, clock);
    assert current == s2["c" := Entry(a2, hash, clock[2])];
    assert current == map[
      "a" := Entry(a0, hash, clock[0]),
      "b" := Entry(a1, hash, clock[1]),
      "c" := Entry(a2, hash, clock[2])];
    assert current.Keys == {"a", "b", "c"};
    var c := Classify(current, previous);
    assert c.updatedSlugs == {"b"};
  }

  // ---------------------------------------------------------------------------
  // Changed files
  // ---------------------------------------------------------------------------

  /** The list of `StatePath(s)` for `s` in `slugs`, in the unspecified order in
      which Python iterates a set. */
  ghost function PathsOf(slugs: set<string>): (paths: seq<string>)
    ensures |paths| == |slugs|
    ensures forall s :: s in slugs ==> StatePath(s) in paths
    ensures forall p :: p in paths ==> exists s :: s in slugs && p == StatePath(s)
    ensures forall i, j :: 0 <= i < j < |paths| ==> paths[i] != paths[j]
    decreases slugs
  {
    if slugs == {} then []
    else
      var s :| s in slugs;
      var rest := PathsOf(slugs - {s});
      assert StatePath(s) !in rest by {
        if StatePath(s) in rest {
          var t :| t in slugs - {s} && StatePath(s) == StatePath(t);
          StatePathInjective(s, t);
        }
      }
      [StatePath(s)] + rest
  }

  /** `get_changed_files`: one upload path per new or updated slug, and nothing else. */
  ghost function ChangedFiles(newSlugs: set<string>, updatedSlugs: set<string>): (paths: seq<string>)
    ensures |paths| == |newSlugs + updatedSlugs|
    ensures paths == [] <==> newSlugs == {} && updatedSlugs == {}
    ensures forall s :: s in newSlugs || s in updatedSlugs ==> StatePath(s) in paths
    ensures forall p :: p in paths ==> exists s :: (s in newSlugs || s in updatedSlugs) && p == StatePath(s)
    ensures forall i, j :: 0 <= i < j < |paths| ==> paths[i] != paths[j]
  {
    PathsOf(newSlugs + updatedSlugs)
  }

  /** A deleted article's path is never among the uploads. */
  lemma DeletedNeverUploaded(current: State, previous: State, s: string)
    requires s in Classify(current, previous).deletedSlugs
    ensures var c := Classify(current, previous);
      StatePath(s) !in ChangedFiles(c.newSlugs, c.updatedSlugs)
  {
    var c := Classify(current, previous);
    if StatePath(s) in ChangedFiles(c.newSlugs, c.updatedSlugs) {
      var t :| (t in c.newSlugs || t in c.updatedSlugs) && StatePath(s) == StatePath(t);
      StatePathInjective(s, t);
    }
  }

  // ---------------------------------------------------------------------------
  // The state file
  // ---------------------------------------------------------------------------

  /** What the state file holds: nothing, something that does not decode to a
      state (unreadable, malformed JSON, wrong fields), or a saved state. */
  datatype StateFile = Missing | Corrupt | Written(entries: State)

  /** The state `load_state` returns for a file. */
  function Decoded(file: StateFile): State {
    if file.Written? then file.entries else map[]
  }

  /** The state file at one path. */
  class StateStore {
    var file: StateFile

    constructor (initial: StateFile)
      ensures file == initial
    {
      file := initial;
    }

    /** `load_state`: a missing or malformed file gives the empty state, never an error. */
    method Load() returns (state: State)
      ensures file.Written? ==> state == file.entries
      ensures !file.Written? ==> state == map[]
    {
      match file
      case Missing =>
        state := map[];
      case Corrupt =>
        state := map[];
      case Written(entries) =>
        state := entries;
    }

    /** `save_state`: overwrites the file with the whole state. */
    method Save(state: State)
      modifies this
      ensures file == Written(state)
    {
      file := Written(state);
    }

    /** `detect_changes`: classifies against the stored state, then stores the current state. */
    method DetectChanges(articles: seq<Article>, hash: string -> string, clock: seq<string>)
      returns (newSlugs: set<string>, updatedSlugs: set<string>, deletedSlugs: set<string>)
      requires |clock| == |articles|
      modifies this
      ensures file == Written(CurrentState(articles, hash, clock))
      ensures ChangeSet(newSlugs, updatedSlugs, deletedSlugs)
        == Classify(CurrentState(articles, hash, clock), Decoded(old(file)))
    {
      var previousState := Load();
      var currentState := BuildCurrentState(articles, hash, clock);
      var currentSlugs := currentState.Keys;
      var previousSlugs := previousState.Keys;
      newSlugs := currentSlugs - previousSlugs;
      updatedSlugs := UpdatedSlugs(currentState, previousState);
      deletedSlugs := previousSlugs - currentSlugs;
      Save(currentState);
    }
  }

  /** Loading after saving gives back the saved state. */
  method SaveThenLoad(store: StateStore, state: State) returns (loaded: State)
    modifies store
    ensures loaded == state
  {
    store.Save(state);
    loaded := store.Load();
  }

  /** Running `detect_changes` twice on the same articles: the second run reports nothing. */
  method DetectChangesTwice(store: StateStore, articles: seq<Article>, hash: string -> string,
                            clock1: seq<string>, clock2: seq<string>)
    returns (second: ChangeSet)
    requires |clock1| == |articles| && |clock2| == |articles|
    modifies store
    ensures second == NoChanges
    ensures store.file == Written(CurrentState(articles, hash, clock2))
  {
    var _, _, _ := store.DetectChanges(articles, hash, clock1);
    var newSlugs, updatedSlugs, deletedSlugs := store.DetectChanges(articles, hash, clock2);
    SecondRunReportsNothing(articles, hash, clock1, clock2);
    second := ChangeSet(newSlugs, updatedSlugs, deletedSlugs);
  }

  // ---------------------------------------------------------------------------
  // From the scraper's records
  // ---------------------------------------------------------------------------

  /** A record returned by `save_as_markdown`, as `build_current_state` reads it:
      it has no `updated_at` key. */
  function FromSaved(r: Scraper.SavedArticle): Article {
    Article(r.slug, r.markdownContent, r.url, None)
  }

  /** Built from scraped records, every key is a well-formed slug and every
      `last_modified` is a clock reading, never a source timestamp. */
  lemma ScrapedState(records: seq<Scraper.SavedArticle>, hash: string -> string, clock: seq<string>)
    requires |clock| == |records|
    requires forall k :: 0 <= k < |records| ==> Scraper.IsSlug(records[k].slug)
    ensures var articles := seq(|records|, k requires 0 <= k < |records| => FromSaved(records[k]));
      var state := CurrentState(articles, hash, clock);
      forall s :: s in state ==> Scraper.IsSlug(s) && state[s].lastModified in clock
  {
    var articles := seq(|records|, k requires 0 <= k < |records| => FromSaved(records[k]));
    var state := CurrentState(articles, hash, clock);
    forall s | s in state ensures Scraper.IsSlug(s) && state[s].lastModified in clock {
      SlugsOfMembers(articles, s);
      var i :| 0 <= i < |articles| && articles[i].slug == s;
      assert Scraper.IsSlug(records[i].slug);
      LastClockReading(articles, hash, clock, s);
    }
  }

  lemma {:induction false} LastClockReading(articles: seq<Article>, hash: string -> string, clock: seq<string>, s: string)
    requires |clock| == |articles|
    requires forall i :: 0 <= i < |articles| ==> articles[i].updatedAt == None
    requires s in CurrentState(articles, hash, clock)
    ensures CurrentState(articles, hash, clock)[s].lastModified in clock
  {
    var n := |articles| - 1;
    if articles[n].slug != s {
      var prefix := articles[..n];
      assert forall i :: 0 <= i < |prefix| ==> prefix[i] == articles[i];
      LastClockReading(prefix, hash, clock[..n], s);
      assert clock[..n] <= clock;
    }
  }

  /** With the default output directory, the file the scraper writes for a slug
      is the path that the state records and uploads. */
  lemma DefaultOutputPath(slug: string)
    requires Scraper.IsSlug(slug)
    ensures Scraper.PathJoin(Scraper.OutputDir, slug + ".md") == StatePath(slug)
  {
    var name := slug + ".md";
    assert name[0] != '/' by {
      if slug != [] {
        assert name[0] == slug[0];
        assert Scraper.IsSlugChar(slug[0]);
      }
    }
  }
}
