/**
 * The logic of the Dork Visualizer page: how a catalog template becomes a
 * search query for the chosen target domain, how that query becomes a
 * Google search link, the short preview shown on each card, where cards go
 * in the three-column grid, and which syntax hints the explanation page
 * lists for a template.
 */
module DorkKing {
  import opened Wrappers
  import opened Text
  import opened Percent

  /** The only replacement field the catalog's templates use. */
  const Placeholder: string := "{target}"

  /** The fixed front of every generated link. */
  const SearchBase: string := "https://www.google.com/search?q="

  /** The preview shown when nothing but `site:<target>` was in the query. */
  const WholeSite: string := "Whole Site Search"

  /** The number of columns in the card grid and in the overview. */
  const ColumnCount: nat := 3

  // ---------------------------------------------------------------------
  // Templates and substitution
  // ---------------------------------------------------------------------

  /**
   * A template in the fragment of `str.format` syntax the catalog uses:
   * every brace belongs to a `{target}` replacement field.
   */
  predicate IsTemplate(t: string)
    decreases |t|
  {
    if t == [] then true
    else if StartsWith(t, Placeholder) then IsTemplate(t[|Placeholder|..])
    else t[0] != '{' && t[0] != '}' && IsTemplate(t[1..])
  }

  /** No brace of either kind. */
  predicate BraceFree(s: string) {
    Lacks(s, '{') && Lacks(s, '}')
  }

  lemma JoinCons(c: char, pieces: seq<string>, sep: string)
    requires |pieces| > 0
    ensures Join([[c] + pieces[0]] + pieces[1..], sep) == [c] + Join(pieces, sep)
  {
  }

  /**
   * The literal text between a template's placeholders: the template is
   * these pieces joined by `{target}`, and no piece holds a brace.
   */
  function Pieces(t: string): (r: seq<string>)
    requires IsTemplate(t)
    ensures |r| > 0
    ensures forall k :: 0 <= k < |r| ==> BraceFree(r[k])
    ensures Join(r, Placeholder) == t
    decreases |t|
  {
    if t == [] then [""]
    else if StartsWith(t, Placeholder) then
      var p := Pieces(t[|Placeholder|..]);
      assert Join([""] + p, Placeholder) == Placeholder + Join(p, Placeholder) by {
        assert ([""] + p)[1..] == p;
      }
      [""] + p
    else
      var p := Pieces(t[1..]);
      JoinCons(t[0], p, Placeholder);
      [[t[0]] + p[0]] + p[1..]
  }

  lemma BraceFreeIsTemplate(s: string, rest: string)
    requires BraceFree(s) && IsTemplate(rest)
    ensures IsTemplate(s + rest)
    decreases |s|
  {
    if s != [] {
      var t := s + rest;
      assert t[0] == s[0] && t[1..] == s[1..] + rest;
      assert !StartsWith(t, Placeholder) by { assert Placeholder[0] == '{'; }
      BraceFreeIsTemplate(s[1..], rest);
    } else {
      assert s + rest == rest;
    }
  }

  /** Conversely, brace-free pieces joined by `{target}` always form a template. */
  lemma {:induction false} JoinIsTemplate(pieces: seq<string>)
    requires |pieces| > 0
    requires forall k :: 0 <= k < |pieces| ==> BraceFree(pieces[k])
    ensures IsTemplate(Join(pieces, Placeholder))
  {
    if |pieces| == 1 {
      BraceFreeIsTemplate(pieces[0], "");
      assert pieces[0] + "" == pieces[0];
    } else {
      JoinIsTemplate(pieces[1..]);
      var rest := Join(pieces[1..], Placeholder);
      assert StartsWith(Placeholder + rest, Placeholder);
      assert (Placeholder + rest)[|Placeholder|..] == rest;
      BraceFreeIsTemplate(pieces[0], Placeholder + rest);
      assert Join(pieces, Placeholder) == pieces[0] + (Placeholder + rest);
    }
  }

  /**
   * `template.format(target=target)` for a template whose only fields are
   * `{target}`: each placeholder is replaced by the target, left to right,
   * and the inserted target is not scanned again. Substituting `{target}`
   * itself gives the template back.
   */
  function Substitute(t: string, target: string): (r: string)
    requires IsTemplate(t)
    ensures target == Placeholder ==> r == t
  {
    ReplaceAll(t, Placeholder, target)
  }

  /**
   * Substitution keeps the text between placeholders verbatim and puts the
   * target, unchanged, where each placeholder was.
   */
  lemma SubstituteSpec(t: string, target: string)
    requires IsTemplate(t)
    ensures Substitute(t, target) == Join(Pieces(t), target)
  {
    var p := Pieces(t);
    forall k | 0 <= k < |p| ensures Lacks(p[k], Placeholder[0]) {
      assert BraceFree(p[k]);
    }
    ReplaceAllJoin(p, Placeholder, target);
  }

  /**
   * For a target without braces, the query has no brace at all, so no
   * `{target}` placeholder is left in it.
   */
  lemma SubstituteLeavesNoPlaceholder(t: string, target: string)
    requires IsTemplate(t) && BraceFree(target)
    ensures BraceFree(Substitute(t, target))
    ensures !Contains(Substitute(t, target), Placeholder)
  {
    SubstituteSpec(t, target);
    var p := Pieces(t);
    JoinLacks(p, target, '{');
    JoinLacks(p, target, '}');
    LacksNotContains(Substitute(t, target), Placeholder, 0);
  }

  /**
   * The inserted value is not scanned again: the target `{target}x` put into
   * `{target}` stays as it is, where a second pass would expand its
   * `{target}` once more.
   */
  lemma TargetCanReintroducePlaceholder()
    ensures IsTemplate(Placeholder)
    ensures Substitute(Placeholder, "{target}x") == "{target}x"
  {
    assert Placeholder[8..] == "";
  }

  /**
   * A `{target}` in `a + x + b`, where `a` and `b` hold no brace, lies
   * entirely inside `x`: its opening brace is past `a` and its closing one
   * before `b`.
   */
  lemma PlaceholderInMiddle(a: string, x: string, b: string, i: nat)
    requires BraceFree(a) && BraceFree(b) && OccursAt(a + x + b, Placeholder, i)
    ensures |a| <= i && OccursAt(x, Placeholder, i - |a|)
  {
    var q := a + x + b;
    assert q[i] == '{' && q[i + 7] == '}' by {
      assert q[i..i + 8] == Placeholder;
    }
    assert |a| <= i && i + 7 < |a| + |x|;
    assert x[i - |a|..i - |a| + 8] == q[i..i + 8];
  }

  /**
   * With a single placeholder, as every catalog template has, a `{target}`
   * in the query can only come from the target: the literal text around the
   * placeholder holds no brace, so both braces of the occurrence fall inside
   * the target.
   */
  lemma SubstituteOnePlaceholder(t: string, target: string)
    requires IsTemplate(t) && |Pieces(t)| == 2
    requires Contains(Substitute(t, target), Placeholder)
    ensures Contains(target, Placeholder)
  {
    SubstituteSpec(t, target);
    var p := Pieces(t);
    var q := Substitute(t, target);
    assert p[1..] == [p[1]];
    assert q == p[0] + target + p[1];
    var i: nat :| i <= |q| && OccursAt(q, Placeholder, i);
    PlaceholderInMiddle(p[0], target, p[1], i);
  }

  /**
   * With two placeholders the general claim "no `{target}` is left unless the
   * target contains one" fails: the target `}{` substituted into
   * `{target}target{target}` assembles a `{target}` across the literal text.
   */
  lemma TargetCanCompletePlaceholder()
    ensures IsTemplate("{target}target{target}")
    ensures !Contains("}{", Placeholder)
    ensures Substitute("{target}target{target}", "}{") == "}{target}{"
    ensures Contains("}{target}{", Placeholder)
  {
    var p := ["", "target", ""];
    CompletingPieces();
    JoinIsTemplate(p);
    ReplaceAllJoin(p, Placeholder, "}{");
    assert OccursAt("}{target}{", Placeholder, 1);
  }

  /** The pieces of `{target}target{target}`, and what they give joined by `}{`. */
  lemma CompletingPieces()
    ensures Join(["", "target", ""], Placeholder) == "{target}target{target}"
    ensures Join(["", "target", ""], "}{") == "}{target}{"
    ensures forall k :: 0 <= k < 3 ==> BraceFree(["", "target", ""][k])
  {
    var p := ["", "target", ""];
    assert p[1..] == ["target", ""] && p[1..][1..] == [""];
    assert BraceFree("target");
  }

  // ---------------------------------------------------------------------
  // Search links
  // ---------------------------------------------------------------------

  /**
   * `generate_google_link(query)`: the search base followed by
   * `quote(query)`, so the link starts with the base and its tail has the
   * shape `IsQuoted` describes.
   */
  function Link(query: string): (r: string)
    ensures StartsWith(r, SearchBase)
    ensures IsQuoted(r[|SearchBase|..])
  {
    var r := SearchBase + Quote(query);
    assert r[..|SearchBase|] == SearchBase && r[|SearchBase|..] == Quote(query);
    r
  }

  /**
   * A link starts with the search base; what follows is exactly the
   * percent-encoding of the query, holds only safe characters and `%XX`
   * escapes, and decodes back to the query.
   */
  lemma LinkSpec(query: string)
    ensures StartsWith(Link(query), SearchBase)
    ensures Link(query)[|SearchBase|..] == Quote(query)
    ensures IsQuoted(Link(query)[|SearchBase|..])
    ensures Unquote(Link(query)[|SearchBase|..]) == Some(query)
  {
    var l := Link(query);
    assert l[..|SearchBase|] == SearchBase;
    assert l[|SearchBase|..] == Quote(query);
    QuoteBytesIsQuoted(Utf8.Encode(query));
    UnquoteQuote(query);
  }

  /** Different queries never share a link. */
  lemma LinkInjective(a: string, b: string)
    requires Link(a) == Link(b)
    ensures a == b
  {
    LinkSpec(a);
    LinkSpec(b);
    QuoteInjective(a, b);
  }

  // ---------------------------------------------------------------------
  // Card preview
  // ---------------------------------------------------------------------

  /**
   * The text on a card: the query with every `site:<target>` removed and
   * surrounding whitespace stripped, or "Whole Site Search" when nothing
   * is left.
   */
  function Preview(query: string, target: string): (r: string)
    ensures r != []
    ensures r == WholeSite || (!IsSpace(r[0]) && !IsSpace(r[|r| - 1]))
  {
    var rest := ReplaceAll(query, "site:" + target, "");
    var shown := Strip(rest);
    if shown == [] then WholeSite else shown
  }

  /**
   * The preview falls back to "Whole Site Search" exactly when the query
   * with every `site:<target>` removed is blank or already reads "Whole Site
   * Search"; otherwise it is that remainder with its surrounding whitespace
   * (and only that) removed.
   */
  lemma PreviewSpec(query: string, target: string)
    ensures var rest := ReplaceAll(query, "site:" + target, "");
      && (Preview(query, target) == WholeSite <==> AllSpace(rest) || Strip(rest) == WholeSite)
      && (!AllSpace(rest) ==> Preview(query, target) == Strip(rest))
  {
  }

  /**
   * The shape most catalog entries have, `site:<target>` followed by
   * filters that do not mention it again: the preview is the stripped
   * filters, or "Whole Site Search" when there are none.
   */
  lemma PreviewAfterSite(target: string, filters: string)
    requires !Contains(filters, "site:" + target)
    ensures var shown := Strip(filters);
      Preview("site:" + target + filters, target) == if shown == [] then WholeSite else shown
  {
    var pat := "site:" + target;
    var q := pat + filters;
    assert StartsWith(q, pat);
    assert q[|pat|..] == filters;
    ReplaceAllAbsent(filters, pat, "");
    assert ReplaceAll(q, pat, "") == filters;
  }

  // ---------------------------------------------------------------------
  // Syntax hints on the explanation page
  // ---------------------------------------------------------------------

  /** The explanation lines the syntax page can show for a template. */
  datatype Hint = InUrlHint | FileTypeHint | SiteHint | ExactPhraseHint

  /** The order the page shows hints in. */
  function Rank(h: Hint): nat {
    match h
    case InUrlHint => 0
    case FileTypeHint => 1
    case SiteHint => 2
    case ExactPhraseHint => 3
  }

  /**
   * The hints for `template`, each chosen by its own substring test:
   * `inurl:`; `ext:` or `filetype:`; `site:`; a double quote.
   */
  function Hints(template: string): (r: seq<Hint>)
    ensures InUrlHint in r <==> Contains(template, "inurl:")
    ensures FileTypeHint in r <==> Contains(template, "ext:") || Contains(template, "filetype:")
    ensures SiteHint in r <==> Contains(template, "site:")
    ensures ExactPhraseHint in r <==> Contains(template, "\"")
    ensures |r| <= 4
    ensures forall i, j :: 0 <= i < j < |r| ==> Rank(r[i]) < Rank(r[j])
  {
    (if Contains(template, "inurl:") then [InUrlHint] else [])
    + (if Contains(template, "ext:") || Contains(template, "filetype:") then [FileTypeHint] else [])
    + (if Contains(template, "site:") then [SiteHint] else [])
    + (if Contains(template, "\"") then [ExactPhraseHint] else [])
  }

  // ---------------------------------------------------------------------
  // Grid placement
  // ---------------------------------------------------------------------

  /** The column of the item at `index`, counting from 0 in catalog order. */
  function Column(index: nat): (c: nat)
    ensures c < ColumnCount
    ensures (index - c) % ColumnCount == 0
  {
    index % ColumnCount
  }

  /** The items that land in column `c`, top to bottom: never more than there are items. */
  function ColumnItems<T>(items: seq<T>, c: nat): (r: seq<T>)
    ensures |r| <= |items|
    decreases |items|
  {
    if items == [] then []
    else
      var n := |items| - 1;
      ColumnItems(items[..n], c) + (if Column(n) == c then [items[n]] else [])
  }

  /** How the number of items in column `c` grows when item `n` is added. */
  lemma ColumnCountStep(n: nat, c: nat)
    requires c < ColumnCount
    ensures (n + ColumnCount - c) / ColumnCount
      == (n + ColumnCount - 1 - c) / ColumnCount + (if Column(n) == c then 1 else 0)
    ensures Column(n) == c ==> n == ColumnCount * ((n + ColumnCount - 1 - c) / ColumnCount) + c
  {
    var q, r := n / ColumnCount, n % ColumnCount;
    assert n == ColumnCount * q + r;
    if r < c {
      SplitDivision(n + ColumnCount - 1 - c, q, r + ColumnCount - 1 - c);
      SplitDivision(n + ColumnCount - c, q, r + ColumnCount - c);
    } else if r == c {
      SplitDivision(n + ColumnCount - 1 - c, q, ColumnCount - 1);
      SplitDivision(n + ColumnCount - c, q + 1, 0);
    } else {
      SplitDivision(n + ColumnCount - 1 - c, q + 1, r - 1 - c);
      SplitDivision(n + ColumnCount - c, q + 1, r - c);
    }
  }

  /** Division by the column count is determined by any quotient-remainder split. */
  lemma SplitDivision(m: int, q: int, r: int)
    requires 0 <= r < ColumnCount && m == ColumnCount * q + r
    ensures m / ColumnCount == q
  {
  }

  /**
   * Column `c` shows items `c`, `c + 3`, `c + 6`, ... in catalog order, so
   * every item is shown once and the column lengths differ by at most one.
   */
  lemma {:induction false} ColumnItemsSpec<T>(items: seq<T>, c: nat)
    requires c < ColumnCount
    ensures |ColumnItems(items, c)| == (|items| + ColumnCount - 1 - c) / ColumnCount
    ensures forall j :: 0 <= j < |ColumnItems(items, c)| ==>
      ColumnCount * j + c < |items| && ColumnItems(items, c)[j] == items[ColumnCount * j + c]
  {
    if items != [] {
      var n := |items| - 1;
      ColumnItemsSpec(items[..n], c);
      var before := ColumnItems(items[..n], c);
      ColumnCountStep(n, c);
      var after := ColumnItems(items, c);
      assert after == before + (if Column(n) == c then [items[n]] else []);
      forall j | 0 <= j < |after|
        ensures ColumnCount * j + c < |items| && after[j] == items[ColumnCount * j + c]
      {
        if j < |before| {
          assert after[j] == before[j] == items[..n][ColumnCount * j + c];
        }
      }
    }
  }

  // ---------------------------------------------------------------------
  // The page
  // ---------------------------------------------------------------------

  /** A catalog entry: title, template and description. */
  datatype Dork = Dork(title: string, template: string, description: string)

  datatype Category = Category(name: string, dorks: seq<Dork>)

  /** What one template gives for one target. */
  datatype Rendered = Rendered(query: string, link: string, preview: string)

  /**
   * `render(template, target)`: the query, its link and its card preview.
   * The query is the template's literal pieces joined by the target, the
   * link starts with the search base and the preview is never empty.
   */
  function Render(template: string, target: string): (r: Rendered)
    requires IsTemplate(template)
    ensures r.query == Join(Pieces(template), target)
    ensures StartsWith(r.link, SearchBase)
    ensures r.preview != []
  {
    SubstituteSpec(template, target);
    var query := Substitute(template, target);
    Rendered(query, Link(query), Preview(query, target))
  }

  /**
   * Everything a rendered card promises: the query is the template with the
   * target in place of each placeholder, the link is the search base and the
   * percent-encoding of the query that decodes back to it, and the preview
   * is the one `Preview` gives for the query and target, so `LinkSpec`,
   * `PreviewSpec` and `PreviewAfterSite` apply to it.
   */
  lemma RenderSpec(template: string, target: string)
    requires IsTemplate(template)
    ensures var r := Render(template, target);
      && r.query == Join(Pieces(template), target)
      && StartsWith(r.link, SearchBase)
      && r.link[|SearchBase|..] == Quote(r.query)
      && IsQuoted(r.link[|SearchBase|..])
      && Unquote(r.link[|SearchBase|..]) == Some(r.query)
      && r.preview == Preview(r.query, target)
      && r.preview != []
  {
    SubstituteSpec(template, target);
    LinkSpec(Substitute(template, target));
  }

  /**
   * How the characters of the query `site:example.com "密码"` are written in
   * its link: the UTF-8 bytes of 密 and 码, the colon, the space and the
   * double quote each become `%XX` escapes.
   */
  lemma ExampleQuoteChars()
    ensures Quote(":") == "%3A" && Quote(" ") == "%20" && Quote("\"") == "%22"
    ensures Quote("密") == "%E5%AF%86" && Quote("码") == "%E7%A0%81"
  {
    assert Utf8.Encode("密") == [0xE5, 0xAF, 0x86];
    assert Utf8.Encode("码") == [0xE7, 0xA0, 0x81];
  }

  /** The example query, split at its special characters, is quoted part by part. */
  lemma ExampleQuoteSplit()
    ensures Quote("site:example.com \"密码\"")
      == Quote("site") + Quote(":") + Quote("example.com") + Quote(" ")
         + Quote("\"") + Quote("密") + Quote("码") + Quote("\"")
  {
    var a, b, c, d, e, f, g := "site", ":", "example.com", " ", "\"", "密", "码";
    assert a + b + c + d + e + f + g + e == "site:example.com \"密码\"";
    QuoteAppend(a, b);
    QuoteAppend(a + b, c);
    QuoteAppend(a + b + c, d);
    QuoteAppend(a + b + c + d, e);
    QuoteAppend(a + b + c + d + e, f);
    QuoteAppend(a + b + c + d + e + f, g);
    QuoteAppend(a + b + c + d + e + f + g, e);
  }

  /** The example's plain parts are already safe and pass through unchanged. */
  lemma ExampleSafeParts()
    ensures Quote("site") == "site" && Quote("example.com") == "example.com"
  {
    ExampleSafeSite();
    ExampleSafeDomain();
  }

  lemma ExampleSafeSite()
    ensures Quote("site") == "site"
  {
    SafeChars("site");
    QuoteSafe("site");
  }

  lemma ExampleSafeDomain()
    ensures Quote("example.com") == "example.com"
  {
    SafeChars("example.com");
    QuoteSafe("example.com");
  }

  /** The example's plain parts consist of safe characters only. */
  lemma SafeChars(s: string)
    requires s == "site" || s == "example.com"
    ensures forall i :: 0 <= i < |s| ==> IsSafe(s[i])
  {
  }

  lemma ExampleEscapesJoined()
    ensures "site" + "%3A" + "example.com" + "%20" + "%22" + "%E5%AF%86" + "%E7%A0%81" + "%22"
      == "site%3Aexample.com%20%22%E5%AF%86%E7%A0%81%22"
  {
  }

  /** The whole link for the query `site:example.com "密码"`. */
  lemma ExampleLink()
    ensures Quote("site:example.com \"密码\"") == "site%3Aexample.com%20%22%E5%AF%86%E7%A0%81%22"
    ensures Link("site:example.com \"密码\"") == SearchBase + "site%3Aexample.com%20%22%E5%AF%86%E7%A0%81%22"
  {
    ExampleQuoteSplit();
    ExampleSafeParts();
    ExampleQuoteChars();
    ExampleEscapesJoined();
  }

  /** Two pieces joined by `sep`. */
  lemma JoinTwo(a: string, b: string, sep: string)
    ensures Join([a, b], sep) == a + sep + b
  {
    assert [a, b][1..] == [b];
  }

  /** The literal facts about the example template's two pieces. */
  lemma ExampleTemplateText()
    ensures "site:" + Placeholder + " \"密码\"" == "site:{target} \"密码\""
    ensures "site:" + "example.com" + " \"密码\"" == "site:example.com \"密码\""
    ensures BraceFree("site:") && BraceFree(" \"密码\"")
  {
  }

  /** The example template `site:{target} "密码"` for the target `example.com` gives the example query. */
  lemma ExampleSubstitute()
    ensures IsTemplate("site:{target} \"密码\"")
    ensures Substitute("site:{target} \"密码\"", "example.com") == "site:example.com \"密码\""
  {
    var p := ["site:", " \"密码\""];
    ExampleTemplateText();
    JoinTwo(p[0], p[1], Placeholder);
    JoinTwo(p[0], p[1], "example.com");
    JoinIsTemplate(p);
    ReplaceAllJoin(p, Placeholder, "example.com");
  }

  /** The literal facts about the pieces of the GitHub template. */
  lemma GitHubTemplateText()
    ensures "site:github.com \"" + Placeholder + "\"" == "site:github.com \"{target}\""
    ensures "site:github.com \"" + "example.com" + "\"" == "site:github.com \"example.com\""
    ensures BraceFree("site:github.com \"") && BraceFree("\"")
  {
  }

  /**
   * The catalog's GitHub entry, `site:github.com "{target}"`, is in the
   * modelled fragment, and for `example.com` it searches GitHub for the
   * quoted domain.
   */
  lemma GitHubSubstitute()
    ensures IsTemplate("site:github.com \"{target}\"")
    ensures Substitute("site:github.com \"{target}\"", "example.com") == "site:github.com \"example.com\""
  {
    var p := ["site:github.com \"", "\""];
    GitHubTemplateText();
    JoinTwo(p[0], p[1], Placeholder);
    JoinTwo(p[0], p[1], "example.com");
    JoinIsTemplate(p);
    ReplaceAllJoin(p, Placeholder, "example.com");
  }

  /** Rendering the example template for `example.com`: its query and its whole link. */
  lemma ExampleRender()
    ensures IsTemplate("site:{target} \"密码\"")
    ensures Render("site:{target} \"密码\"", "example.com").query == "site:example.com \"密码\""
    ensures Render("site:{target} \"密码\"", "example.com").link
      == SearchBase + "site%3Aexample.com%20%22%E5%AF%86%E7%A0%81%22"
  {
    ExampleSubstitute();
    ExampleLink();
  }

  /** Every template in the catalog is in the modelled `str.format` fragment. */
  predicate WellFormedCatalog(catalog: seq<Category>) {
    forall i, j :: 0 <= i < |catalog| && 0 <= j < |catalog[i].dorks| ==> IsTemplate(catalog[i].dorks[j].template)
  }

  /** One card of a tab: the entry's title and description, what it renders to, and its column. */
  datatype Card = Card(title: string, description: string, rendered: Rendered, column: nat)

  datatype Tab = Tab(category: string, cards: seq<Card>)

  /**
   * What the visualiser shows: without a target, the welcome state, which
   * lists the category names in a three-column overview and builds no query
   * or link; with one, a tab per category holding a card per entry.
   */
  datatype Screen = Welcome(overview: seq<(string, nat)>) | Results(tabs: seq<Tab>)

  /**
   * The tab for one category: its name, and for entry `j` a card with the
   * entry's title and description, what its template renders to, and column
   * `j % 3`.
   */
  function TabFor(category: Category, target: string): (tab: Tab)
    requires forall j :: 0 <= j < |category.dorks| ==> IsTemplate(category.dorks[j].template)
    ensures tab.category == category.name && |tab.cards| == |category.dorks|
    ensures forall j :: 0 <= j < |category.dorks| ==>
      var d := category.dorks[j];
      tab.cards[j] == Card(d.title, d.description, Render(d.template, target), j % ColumnCount)
  {
    Tab(category.name, seq(|category.dorks|, j requires 0 <= j < |category.dorks| =>
      var d := category.dorks[j];
      Card(d.title, d.description, Render(d.template, target), Column(j))))
  }

  /** The visualiser page for the stored target domain. */
  function Page(catalog: seq<Category>, target: string): (s: Screen)
    requires WellFormedCatalog(catalog)
    ensures s.Welcome? <==> target == []
    ensures s.Welcome? ==> (|s.overview| == |catalog|
      && forall i :: 0 <= i < |catalog| ==> s.overview[i] == (catalog[i].name, Column(i)))
    ensures s.Results? ==> (|s.tabs| == |catalog|
      && forall i :: 0 <= i < |catalog| ==> s.tabs[i] == TabFor(catalog[i], target))
  {
    if target == [] then
      Welcome(seq(|catalog|, i requires 0 <= i < |catalog| => (catalog[i].name, Column(i))))
    else
      Results(seq(|catalog|, i requires 0 <= i < |catalog| => TabFor(catalog[i], target)))
  }

  /**
   * With a target, every card of every tab carries the entry's own title and
   * description, sits in column `j % 3` for its position `j`, and holds the
   * query, link and preview that rendering its template gives, with all that
   * `RenderSpec` promises about them.
   */
  lemma PageSpec(catalog: seq<Category>, target: string, i: nat, j: nat)
    requires WellFormedCatalog(catalog) && target != []
    requires i < |catalog| && j < |catalog[i].dorks|
    ensures var card := Page(catalog, target).tabs[i].cards[j];
      var d := catalog[i].dorks[j];
      && card.title == d.title && card.description == d.description
      && card.column == j % ColumnCount
      && card.rendered == Render(d.template, target)
      && card.rendered.query == Join(Pieces(d.template), target)
      && StartsWith(card.rendered.link, SearchBase)
      && card.rendered.link[|SearchBase|..] == Quote(card.rendered.query)
      && Unquote(card.rendered.link[|SearchBase|..]) == Some(card.rendered.query)
      && card.rendered.preview == Preview(card.rendered.query, target)
      && card.rendered.preview != []
  {
    RenderSpec(catalog[i].dorks[j].template, target);
  }
}
