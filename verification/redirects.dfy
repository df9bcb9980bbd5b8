/**
 Redirect generation for the site's hosting configuration: every legacy URL
 of an article becomes a permanent redirect to the article's slug, a fixed
 list of `.html` pages redirects to their clean paths, and the combined list
 is de-duplicated by source path through a JavaScript `Map`.
 */
module Redirects {
  import opened Optional
  import opened Strings
  import JsMap

  /** An article as fetched from the content store: its slug and, optionally, the
      URLs under which it used to be published. */
  datatype Article = Article(slug: string, legacyUrls: Maybe<seq<string>>)

  /** One redirect rule of the hosting configuration. */
  datatype Redirect = Redirect(source: string, destination: string, permanent: bool)

  /** The article's legacy URLs, a missing list read as empty. */
  function LegacyUrls(a: Article): seq<string> {
    match a.legacyUrls
    case Defined(urls) => urls
    case Undefined => []
  }

  /** A legacy URL as a source path: it gains a leading `/` when it lacks one. */
  function NormalizeSource(url: string): (source: string)
    ensures StartsWith(source, '/')
    ensures StartsWith(url, '/') ==> source == url
    ensures |url| <= |source| <= |url| + 1
    ensures source[|source| - |url|..] == url
  {
    if StartsWith(url, '/') then url else "/" + url
  }

  /** Normalising twice changes nothing more than normalising once. */
  lemma NormalizeSourceIdempotent(url: string)
    ensures NormalizeSource(NormalizeSource(url)) == NormalizeSource(url)
  {
  }

  /** The contract of `NormalizeSource` pins it down: exactly one `/` is added to a URL
      that lacks it. */
  lemma NormalizeSourcePrependsOne(url: string)
    requires !StartsWith(url, '/')
    ensures NormalizeSource(url) == "/" + url
  {
    var source := NormalizeSource(url);
    assert |source| == |url| + 1;
    assert source == [source[0]] + source[1..];
  }

  /** The redirects of one article, one per legacy URL. */
  function ArticleRedirects(a: Article): seq<Redirect> {
    seq(|LegacyUrls(a)|, j requires 0 <= j < |LegacyUrls(a)| =>
      Redirect(NormalizeSource(LegacyUrls(a)[j]), "/" + a.slug, true))
  }

  /** The number of legacy URLs over all articles, a missing list counting 0. */
  function TotalUrls(articles: seq<Article>): nat {
    if |articles| == 0 then 0 else |LegacyUrls(articles[0])| + TotalUrls(articles[1..])
  }

  /** `generateArticleRedirects`: the redirects of every article, in article order. */
  function GenerateArticleRedirects(articles: seq<Article>): (rs: seq<Redirect>)
    ensures |rs| == TotalUrls(articles)
    ensures forall k :: 0 <= k < |rs| ==> StartsWith(rs[k].source, '/') && rs[k].permanent
  {
    if |articles| == 0 then []
    else
      var head := ArticleRedirects(articles[0]);
      var rest := GenerateArticleRedirects(articles[1..]);
      assert forall k :: |head| <= k < |head| + |rest| ==> (head + rest)[k] == rest[k - |head|];
      head + rest
  }

  /** The `j`-th legacy URL of the `i`-th article yields the redirect at position
      (URLs of the articles before it) + `j`: normalised source, `/slug` destination,
      permanent. */
  lemma {:induction false} GenerateArticleRedirectsAt(articles: seq<Article>, i: nat, j: nat)
    requires i < |articles| && j < |LegacyUrls(articles[i])|
    ensures TotalUrls(articles[..i]) + j < |GenerateArticleRedirects(articles)|
    ensures GenerateArticleRedirects(articles)[TotalUrls(articles[..i]) + j]
      == Redirect(NormalizeSource(LegacyUrls(articles[i])[j]), "/" + articles[i].slug, true)
    decreases i
  {
    if i == 0 {
      GenerateArticleRedirectsAtFirst(articles, j);
    } else {
      var tail := articles[1..];
      assert tail[i - 1] == articles[i];
      GenerateArticleRedirectsAt(tail, i - 1, j);
      GenerateArticleRedirectsShift(articles, i, j);
    }
  }

  lemma GenerateArticleRedirectsAtFirst(articles: seq<Article>, j: nat)
    requires 0 < |articles| && j < |LegacyUrls(articles[0])|
    ensures TotalUrls(articles[..0]) + j < |GenerateArticleRedirects(articles)|
    ensures GenerateArticleRedirects(articles)[TotalUrls(articles[..0]) + j]
      == Redirect(NormalizeSource(LegacyUrls(articles[0])[j]), "/" + articles[0].slug, true)
  {
    assert articles[..0] == [];
    assert TotalUrls(articles[..0]) == 0;
    var head := ArticleRedirects(articles[0]);
    var rest := GenerateArticleRedirects(articles[1..]);
    assert GenerateArticleRedirects(articles) == head + rest;
    assert (head + rest)[j] == head[j];
  }

  /** Positions in the redirects of `articles[1..]` move up by the first article's URL count. */
  lemma GenerateArticleRedirectsShift(articles: seq<Article>, i: nat, j: nat)
    requires 0 < i < |articles|
    requires TotalUrls(articles[1..][..i - 1]) + j < |GenerateArticleRedirects(articles[1..])|
    ensures TotalUrls(articles[..i]) + j < |GenerateArticleRedirects(articles)|
    ensures GenerateArticleRedirects(articles)[TotalUrls(articles[..i]) + j]
      == GenerateArticleRedirects(articles[1..])[TotalUrls(articles[1..][..i - 1]) + j]
  {
    var head := ArticleRedirects(articles[0]);
    var rest := GenerateArticleRedirects(articles[1..]);
    var t := TotalUrls(articles[1..][..i - 1]);
    TotalUrlsPrefix(articles, i);
    assert TotalUrls(articles[..i]) + j == |head| + (t + j);
    assert GenerateArticleRedirects(articles) == head + rest;
    assert (head + rest)[|head| + (t + j)] == rest[t + j];
  }

  /** Conversely, every generated redirect comes from some legacy URL `j` of some
      article `i`, and sits at exactly the position `GenerateArticleRedirectsAt` names. */
  lemma {:induction false} GenerateArticleRedirectsOrigin(articles: seq<Article>, k: nat)
    returns (i: nat, j: nat)
    requires k < |GenerateArticleRedirects(articles)|
    ensures i < |articles| && j < |LegacyUrls(articles[i])|
    ensures k == TotalUrls(articles[..i]) + j
    ensures GenerateArticleRedirects(articles)[k]
      == Redirect(NormalizeSource(LegacyUrls(articles[i])[j]), "/" + articles[i].slug, true)
    decreases |articles|
  {
    var head := ArticleRedirects(articles[0]);
    assert GenerateArticleRedirects(articles)
      == head + GenerateArticleRedirects(articles[1..]);
    if k < |head| {
      i, j := 0, k;
      GenerateArticleRedirectsAtFirst(articles, j);
    } else {
      var i', j' := GenerateArticleRedirectsOrigin(articles[1..], k - |head|);
      i, j := i' + 1, j';
      assert articles[1..][i'] == articles[i];
      GenerateArticleRedirectsShift(articles, i, j);
      TotalUrlsPrefix(articles, i);
    }
  }

  /** Counting the URLs of a non-empty prefix starts with its first article. */
  lemma TotalUrlsPrefix(articles: seq<Article>, i: nat)
    requires 0 < i <= |articles|
    ensures TotalUrls(articles[..i]) == |LegacyUrls(articles[0])| + TotalUrls(articles[1..][..i - 1])
  {
    assert articles[..i][1..] == articles[1..][..i - 1];
  }

  /** `getGlobalRedirects`: old `.html` pages moved to their clean paths. */
  function GlobalRedirects(): (rs: seq<Redirect>)
    ensures |rs| == 2
    ensures forall k :: 0 <= k < |rs| ==>
      && rs[k].permanent
      && StartsWith(rs[k].source, '/')
      && rs[k].source == rs[k].destination + ".html"
    ensures DistinctSources(rs)
  {
    [
      Redirect("/cheminis-skaiciuotuvas.html", "/cheminis-skaiciuotuvas", true),
      Redirect("/egzaminai.html", "/egzaminai", true)
    ]
  }

  /** The source paths of a list of redirects, in list order. */
  function Sources(rs: seq<Redirect>): (ss: seq<string>)
    ensures |ss| == |rs|
    ensures forall i :: 0 <= i < |rs| ==> ss[i] == rs[i].source
  {
    seq(|rs|, i requires 0 <= i < |rs| => rs[i].source)
  }

  /** No two redirects share a source path. */
  predicate DistinctSources(rs: seq<Redirect>) {
    forall i, j :: 0 <= i < j < |rs| ==> rs[i].source != rs[j].source
  }

  /** The `[source, redirect]` pairs handed to the `Map` constructor. */
  function Entries(rs: seq<Redirect>): (es: seq<(string, Redirect)>)
    ensures JsMap.KeysOf(es) == Sources(rs)
    ensures forall i :: 0 <= i < |rs| ==> es[i].1 == rs[i]
  {
    seq(|rs|, i requires 0 <= i < |rs| => (rs[i].source, rs[i]))
  }

  /** The map built from `rs` stores, under each key, the last redirect of `rs` with
      that key as its source. */
  lemma MapHoldsLast(rs: seq<Redirect>)
    ensures forall i :: 0 <= i < |JsMap.FromEntries(Entries(rs)).keys| ==>
      var k := JsMap.FromEntries(Entries(rs)).keys[i];
      && k in Sources(rs)
      && k in JsMap.FromEntries(Entries(rs)).entries
      && JsMap.FromEntries(Entries(rs)).entries[k] == rs[JsMap.LastIndex(Sources(rs), k)]
      && JsMap.FromEntries(Entries(rs)).entries[k].source == k
  {
    JsMap.FromEntriesKeys(Entries(rs));
    JsMap.FromEntriesLastWins(Entries(rs));
  }

  /** `processRedirects`: one redirect per distinct source path, and no source path lost. */
  function ProcessRedirects(rs: seq<Redirect>): (out: seq<Redirect>)
    ensures DistinctSources(out)
    ensures Sources(out) == JsMap.FromEntries(Entries(rs)).keys
    ensures |out| <= |rs|
  {
    var m := JsMap.FromEntries(Entries(rs));
    MapHoldsLast(rs);
    JsMap.FromEntriesSize(Entries(rs));
    JsMap.Values(m)
  }

  /** Only duplicates are dropped: the output has exactly the input's source paths. */
  lemma ProcessRedirectsSameSources(rs: seq<Redirect>)
    ensures forall s :: s in Sources(ProcessRedirects(rs)) <==> s in Sources(rs)
  {
    JsMap.FromEntriesKeys(Entries(rs));
  }

  /** Each surviving redirect is the LAST input redirect with its source path. */
  lemma ProcessRedirectsKeepsLast(rs: seq<Redirect>)
    ensures forall i :: 0 <= i < |ProcessRedirects(rs)| ==>
      && ProcessRedirects(rs)[i].source in Sources(rs)
      && ProcessRedirects(rs)[i] == rs[JsMap.LastIndex(Sources(rs), ProcessRedirects(rs)[i].source)]
  {
    MapHoldsLast(rs);
  }

  /** The surviving redirects are ordered by the FIRST appearance of their source path. */
  lemma ProcessRedirectsFirstOccurrenceOrder(rs: seq<Redirect>)
    ensures JsMap.InFirstOccurrenceOrder(Sources(ProcessRedirects(rs)), Sources(rs))
  {
    JsMap.FromEntriesFirstOrder(Entries(rs));
  }

  /** A list whose source paths are already distinct passes through unchanged. */
  lemma ProcessRedirectsOfDistinct(rs: seq<Redirect>)
    requires DistinctSources(rs)
    ensures ProcessRedirects(rs) == rs
  {
    JsMap.FromEntriesDistinct(Entries(rs));
  }

  /** De-duplicating twice is de-duplicating once. */
  lemma ProcessRedirectsIdempotent(rs: seq<Redirect>)
    ensures ProcessRedirects(ProcessRedirects(rs)) == ProcessRedirects(rs)
  {
    ProcessRedirectsOfDistinct(ProcessRedirects(rs));
  }

  /** The redirects written to the configuration: article redirects first, then the
      global ones, de-duplicated by source path. */
  function FinalRedirects(articles: seq<Article>): (out: seq<Redirect>)
    ensures DistinctSources(out)
    ensures forall k :: 0 <= k < |out| ==> StartsWith(out[k].source, '/') && out[k].permanent
  {
    var all := GenerateArticleRedirects(articles) + GlobalRedirects();
    assert forall k :: 0 <= k < |all| ==> StartsWith(all[k].source, '/') && all[k].permanent;
    ProcessRedirectsKeepsLast(all);
    ProcessRedirects(all)
  }

  /** In the combined list, the last redirect with a global rule's source path is that
      global rule itself. */
  lemma GlobalIsLastWithItsSource(gen: seq<Redirect>, t: nat)
    requires t < |GlobalRedirects()|
    ensures GlobalRedirects()[t].source in Sources(gen + GlobalRedirects())
    ensures JsMap.LastIndex(Sources(gen + GlobalRedirects()), GlobalRedirects()[t].source) == |gen| + t
  {
    var globals := GlobalRedirects();
    var all := gen + globals;
    var s := globals[t].source;
    assert Sources(all)[|gen| + t] == s;
    forall k' | |gen| + t < k' < |all|
      ensures all[k'].source != s
    {
      assert all[k'] == globals[k' - |gen|];
    }
  }

  /** A global rule always survives, and it replaces any article redirect that claims
      the same source path. */
  lemma GlobalRedirectsOverride(articles: seq<Article>)
    ensures forall g :: g in GlobalRedirects() ==> g in FinalRedirects(articles)
    ensures forall k, t ::
      (0 <= k < |FinalRedirects(articles)| && 0 <= t < |GlobalRedirects()| &&
       FinalRedirects(articles)[k].source == GlobalRedirects()[t].source) ==>
      FinalRedirects(articles)[k] == GlobalRedirects()[t]
  {
    forall g | g in GlobalRedirects()
      ensures g in FinalRedirects(articles)
    {
      var t :| 0 <= t < |GlobalRedirects()| && GlobalRedirects()[t] == g;
      GlobalSurvives(articles, t);
    }
    forall t | 0 <= t < |GlobalRedirects()|
      ensures forall k ::
        (0 <= k < |FinalRedirects(articles)| &&
         FinalRedirects(articles)[k].source == GlobalRedirects()[t].source) ==>
        FinalRedirects(articles)[k] == GlobalRedirects()[t]
    {
      GlobalWins(articles, t);
    }
  }

  lemma GlobalSurvives(articles: seq<Article>, t: nat)
    requires t < |GlobalRedirects()|
    ensures GlobalRedirects()[t] in FinalRedirects(articles)
  {
    var gen := GenerateArticleRedirects(articles);
    var all := gen + GlobalRedirects();
    var out := FinalRedirects(articles);
    var g := GlobalRedirects()[t];
    assert out == ProcessRedirects(all);
    ProcessRedirectsKeepsLast(all);
    ProcessRedirectsSameSources(all);
    GlobalIsLastWithItsSource(gen, t);
    assert g.source in Sources(out);
    var k :| 0 <= k < |out| && Sources(out)[k] == g.source;
    assert out[k] == all[|gen| + t];
  }

  lemma GlobalWins(articles: seq<Article>, t: nat)
    requires t < |GlobalRedirects()|
    ensures forall k ::
      (0 <= k < |FinalRedirects(articles)| &&
       FinalRedirects(articles)[k].source == GlobalRedirects()[t].source) ==>
      FinalRedirects(articles)[k] == GlobalRedirects()[t]
  {
    var gen := GenerateArticleRedirects(articles);
    var all := gen + GlobalRedirects();
    var out := FinalRedirects(articles);
    assert out == ProcessRedirects(all);
    ProcessRedirectsKeepsLast(all);
    GlobalIsLastWithItsSource(gen, t);
    forall k | 0 <= k < |out| && out[k].source == GlobalRedirects()[t].source
      ensures out[k] == GlobalRedirects()[t]
    {
      assert out[k] == all[|gen| + t];
    }
  }

  /** An article redirect whose source path no later redirect reuses reaches the
      configuration unchanged. */
  lemma ArticleRedirectSurvives(articles: seq<Article>, k: nat)
    requires k < |GenerateArticleRedirects(articles)|
    requires forall k' :: k < k' < |GenerateArticleRedirects(articles)| ==>
      GenerateArticleRedirects(articles)[k'].source != GenerateArticleRedirects(articles)[k].source
    requires forall t :: 0 <= t < |GlobalRedirects()| ==>
      GlobalRedirects()[t].source != GenerateArticleRedirects(articles)[k].source
    ensures GenerateArticleRedirects(articles)[k] in FinalRedirects(articles)
  {
    var gen := GenerateArticleRedirects(articles);
    var globals := GlobalRedirects();
    var all := gen + globals;
    forall k' | k < k' < |all|
      ensures all[k'].source != all[k].source
    {
      if k' >= |gen| {
        assert all[k'] == globals[k' - |gen|];
      }
    }
    ProcessRedirectsKeepsUnrepeated(all, k);
    assert FinalRedirects(articles) == ProcessRedirects(all);
  }

  /** A redirect whose source path no later redirect reuses survives de-duplication. */
  lemma ProcessRedirectsKeepsUnrepeated(rs: seq<Redirect>, k: nat)
    requires k < |rs|
    requires forall k' :: k < k' < |rs| ==> rs[k'].source != rs[k].source
    ensures rs[k] in ProcessRedirects(rs)
  {
    var out := ProcessRedirects(rs);
    ProcessRedirectsKeepsLast(rs);
    ProcessRedirectsSameSources(rs);
    var s := rs[k].source;
    assert Sources(rs)[k] == s;
    assert JsMap.LastIndex(Sources(rs), s) == k;
    assert s in Sources(out);
    var i :| 0 <= i < |out| && Sources(out)[i] == s;
    assert out[i] == rs[k];
  }
}
