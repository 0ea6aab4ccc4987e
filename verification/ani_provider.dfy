/**
 * The ANi source provider's title and filter logic: season detection,
 * season renaming, the blacklist, normalisation of its config values,
 * and the item loop that turns a parsed feed into download resources.
 */
module AniProvider {
  import opened Wrappers
  import PyDict
  import PyText
  import opened PyValue
  import EpisodeTag

  /** What the config reader returns: a dict of config values. */
  type Config = PyDict.Dict<string, Value>

  /**
   * A season keyword table, in iteration order. The custom mapping is a
   * dict, so its keywords are distinct; the functions here accept any
   * table, and on one with distinct keywords they agree with the dict.
   */
  type SeasonTable = seq<(string, int)>

  /** The built-in keywords, second to tenth season, in table order. */
  const BuiltinSeasons: SeasonTable := [
    ("第二季", 2), ("第三季", 3), ("第四季", 4), ("第五季", 5), ("第六季", 6),
    ("第七季", 7), ("第八季", 8), ("第九季", 9), ("第十季", 10)
  ]

  // ---------------------------------------------------------------------
  // Season detection
  // ---------------------------------------------------------------------

  /** The last entry of `table` whose keyword occurs in `title`. */
  function LastMatch(table: SeasonTable, title: string): (r: Option<(string, int)>)
    decreases |table|
    ensures r.Some? ==> r.value in table && PyText.Contains(title, r.value.0)
  {
    if |table| == 0 then None
    else if PyText.Contains(title, table[|table| - 1].0) then Some(table[|table| - 1])
    else LastMatch(table[..|table| - 1], title)
  }

  /**
   * Reference for `get_season`: the last matching custom keyword if any,
   * else the last matching built-in keyword, else season 1 and no keyword.
   */
  function SeasonOf(title: string, custom: SeasonTable): (r: (int, Option<string>))
    ensures r.1.None? <==>
      && (forall j :: 0 <= j < |custom| ==> !PyText.Contains(title, custom[j].0))
      && (forall j :: 0 <= j < |BuiltinSeasons| ==> !PyText.Contains(title, BuiltinSeasons[j].0))
    ensures r.1.None? ==> r.0 == 1
    ensures r.1.Some? ==> PyText.Contains(title, r.1.value)
    ensures r.1.Some? ==> (r.1.value, r.0) in custom || (r.1.value, r.0) in BuiltinSeasons
    ensures (exists j :: 0 <= j < |custom| && PyText.Contains(title, custom[j].0)) ==> (r.1.value, r.0) in custom
  {
    LastMatchNone(custom, title);
    LastMatchNone(BuiltinSeasons, title);
    match LastMatch(custom, title)
    case Some(e) => (e.1, Some(e.0))
    case None =>
      match LastMatch(BuiltinSeasons, title)
      case Some(e) => (e.1, Some(e.0))
      case None => (1, None)
  }

  /**
   * `get_season`: scan the built-in table, then the custom mapping; every
   * keyword found in the title overwrites the season and keyword so far.
   */
  method GetSeason(title: string, custom: SeasonTable) returns (season: int, keyword: Option<string>)
    ensures (season, keyword) == SeasonOf(title, custom)
  {
    season, keyword := 1, None;
    var i := 0;
    while i < |BuiltinSeasons|
      invariant 0 <= i <= |BuiltinSeasons|
      invariant LastMatch(BuiltinSeasons[..i], title).None? ==> season == 1 && keyword == None
      invariant LastMatch(BuiltinSeasons[..i], title).Some? ==>
        (season, keyword) == (LastMatch(BuiltinSeasons[..i], title).value.1, Some(LastMatch(BuiltinSeasons[..i], title).value.0))
    {
      assert BuiltinSeasons[..i + 1][..i] == BuiltinSeasons[..i];
      if PyText.Contains(title, BuiltinSeasons[i].0) {
        season, keyword := BuiltinSeasons[i].1, Some(BuiltinSeasons[i].0);
      }
      i := i + 1;
    }
    assert BuiltinSeasons[..i] == BuiltinSeasons;
    i := 0;
    while i < |custom|
      invariant 0 <= i <= |custom|
      invariant LastMatch(custom[..i], title).None? ==> (season, keyword) == SeasonOf(title, [])
      invariant LastMatch(custom[..i], title).Some? ==>
        (season, keyword) == (LastMatch(custom[..i], title).value.1, Some(LastMatch(custom[..i], title).value.0))
    {
      assert custom[..i + 1][..i] == custom[..i];
      if PyText.Contains(title, custom[i].0) {
        season, keyword := custom[i].1, Some(custom[i].0);
      }
      i := i + 1;
    }
    assert custom[..i] == custom;
  }

  /** `LastMatch` finds nothing exactly when no keyword of the table occurs in the title. */
  lemma {:induction false} LastMatchNone(table: SeasonTable, title: string)
    ensures LastMatch(table, title).None? <==> forall j :: 0 <= j < |table| ==> !PyText.Contains(title, table[j].0)
    decreases |table|
  {
    if |table| > 0 {
      var pre := table[..|table| - 1];
      LastMatchNone(pre, title);
      assert forall j :: 0 <= j < |pre| ==> pre[j] == table[j];
    }
  }

  /** `LastMatch` returns the matching entry with no matching entry after it. */
  lemma {:induction false} LastMatchIsLast(table: SeasonTable, title: string, j: nat)
    requires j < |table| && PyText.Contains(title, table[j].0)
    requires forall k :: j < k < |table| ==> !PyText.Contains(title, table[k].0)
    ensures LastMatch(table, title) == Some(table[j])
    decreases |table|
  {
    if j < |table| - 1 {
      var pre := table[..|table| - 1];
      assert pre[j] == table[j];
      forall k | j < k < |pre| ensures !PyText.Contains(title, pre[k].0) {
        assert pre[k] == table[k];
      }
      LastMatchIsLast(pre, title, j);
    }
  }

  /** No built-in or custom keyword in the title: season 1, no keyword. */
  lemma SeasonDefault(title: string, custom: SeasonTable)
    requires forall j :: 0 <= j < |custom| ==> !PyText.Contains(title, custom[j].0)
    requires forall j :: 0 <= j < |BuiltinSeasons| ==> !PyText.Contains(title, BuiltinSeasons[j].0)
    ensures SeasonOf(title, custom) == (1, None)
  {
    LastMatchNone(custom, title);
    LastMatchNone(BuiltinSeasons, title);
  }

  /** A matching custom keyword overrides every built-in one; the last matching custom keyword wins. */
  lemma SeasonCustomOverrides(title: string, custom: SeasonTable, j: nat)
    requires j < |custom| && PyText.Contains(title, custom[j].0)
    requires forall k :: j < k < |custom| ==> !PyText.Contains(title, custom[k].0)
    ensures SeasonOf(title, custom) == (custom[j].1, Some(custom[j].0))
  {
    LastMatchIsLast(custom, title, j);
  }

  /** Without a custom match, the last built-in keyword in table order that occurs decides. */
  lemma SeasonBuiltinLast(title: string, custom: SeasonTable, j: nat)
    requires forall k :: 0 <= k < |custom| ==> !PyText.Contains(title, custom[k].0)
    requires j < |BuiltinSeasons| && PyText.Contains(title, BuiltinSeasons[j].0)
    requires forall k :: j < k < |BuiltinSeasons| ==> !PyText.Contains(title, BuiltinSeasons[k].0)
    ensures SeasonOf(title, custom) == (BuiltinSeasons[j].1, Some(BuiltinSeasons[j].0))
  {
    LastMatchNone(custom, title);
    LastMatchIsLast(BuiltinSeasons, title, j);
  }

  /**
   * A season above 1 always comes with the keyword that produced it, so
   * renaming never removes the text " None".
   */
  lemma SeasonAboveOneHasKeyword(title: string, custom: SeasonTable)
    ensures SeasonOf(title, custom).0 != 1 ==> SeasonOf(title, custom).1.Some?
  {
  }

  // ---------------------------------------------------------------------
  // Season renaming
  // ---------------------------------------------------------------------

  /** `f" {keyword}"`: a missing keyword is formatted as `None`. */
  function KeywordText(keyword: Option<string>): string {
    if keyword.Some? then keyword.value else "None"
  }

  /**
   * `rename_season`: drop every occurrence of `" " + keyword`, then rewrite
   * each episode tag with the season padded to two digits.
   */
  function RenameSeason(title: string, season: int, keyword: Option<string>): (r: string)
    ensures !PyText.Contains(title, " " + KeywordText(keyword)) && EpisodeTag.DashSpaceFree(title) ==> r == title
    ensures |r| >= |StripKeyword(title, keyword)|
  {
    EpisodeTag.Sub(StripKeyword(title, keyword), SeasonText(season))
  }

  /** `title.replace(f" {keyword}", "")`. */
  function StripKeyword(title: string, keyword: Option<string>): string {
    PyText.Replace(title, " " + KeywordText(keyword), "")
  }

  /** `str(season).zfill(2)`. */
  function SeasonText(season: int): string {
    PyText.ZFill(PyText.IntToStr(season), 2)
  }

  /**
   * The usual feed title: once the keyword is gone, text around one
   * episode tag is kept and the tag gains `S<season>E`, the season being
   * its two digits.
   */
  lemma RenameSeasonShape(a: string, tag: EpisodeTag.Tag, b: string, season: nat, keyword: string)
    requires season < 100
    requires EpisodeTag.WellFormed(tag) && EpisodeTag.DashSpaceFree(a) && EpisodeTag.DashSpaceFree(b)
    requires !PyText.Contains(a + EpisodeTag.Render(tag) + b, " " + keyword)
    ensures RenameSeason(a + EpisodeTag.Render(tag) + b, season, Some(keyword))
      == a + EpisodeTag.Rewrite(tag, [PyText.DigitChar(season / 10), PyText.DigitChar(season % 10)]) + b
  {
    PyText.ZFillTwoDigits(season);
    EpisodeTag.SubSingleTag(a, tag, b, SeasonText(season));
  }

  lemma RegroupTitle(a1: string, a2: string, t: string, b: string)
    ensures a1 + (a2 + t + b) == (a1 + a2) + t + b
  {
  }

  /** Removing a keyword that occurs once leaves the text around it. */
  lemma StripKeywordOnce(a: string, keyword: string, rest: string)
    requires forall j :: 0 <= j < |a| ==> !PyText.StartsAt(a + (" " + keyword) + rest, " " + keyword, j)
    requires !PyText.Contains(rest, " " + keyword)
    ensures StripKeyword(a + (" " + keyword) + rest, Some(keyword)) == a + rest
  {
    PyText.ReplaceOnce(a, " " + keyword, "", rest);
    assert a + "" + rest == a + rest;
  }

  /**
   * A title carrying its season keyword once, before one episode tag:
   * the keyword and its leading space disappear and the tag is rewritten.
   */
  lemma RenameSeasonRemovesKeyword(a1: string, keyword: string, a2: string, tag: EpisodeTag.Tag, b: string, season: nat)
    requires season < 100
    requires EpisodeTag.WellFormed(tag) && EpisodeTag.DashSpaceFree(a1 + a2) && EpisodeTag.DashSpaceFree(b)
    requires forall j :: 0 <= j < |a1| ==>
      !PyText.StartsAt(a1 + (" " + keyword) + (a2 + EpisodeTag.Render(tag) + b), " " + keyword, j)
    requires !PyText.Contains(a2 + EpisodeTag.Render(tag) + b, " " + keyword)
    ensures RenameSeason(a1 + (" " + keyword) + (a2 + EpisodeTag.Render(tag) + b), season, Some(keyword))
      == a1 + a2 + EpisodeTag.Rewrite(tag, [PyText.DigitChar(season / 10), PyText.DigitChar(season % 10)]) + b
  {
    var tagText := EpisodeTag.Render(tag);
    var rest := a2 + tagText + b;
    var title := a1 + (" " + keyword) + rest;
    var digits := SeasonText(season);
    StripKeywordOnce(a1, keyword, rest);
    RegroupTitle(a1, a2, tagText, b);
    assert RenameSeason(title, season, Some(keyword)) == EpisodeTag.Sub((a1 + a2) + tagText + b, digits);
    PyText.ZFillTwoDigits(season);
    EpisodeTag.SubSingleTag(a1 + a2, tag, b, digits);
  }

  // ---------------------------------------------------------------------
  // Blacklist
  // ---------------------------------------------------------------------

  /** Some blacklist entry occurs in the text. */
  predicate Blacklisted(text: string, blacklist: seq<string>) {
    exists i | 0 <= i < |blacklist| :: PyText.Contains(text, blacklist[i])
  }

  /** `check_blacklist`: true at the first entry that occurs in the text, false if none does. */
  method CheckBlacklist(text: string, blacklist: seq<string>) returns (hit: bool)
    ensures hit <==> Blacklisted(text, blacklist)
    ensures |blacklist| == 0 ==> !hit
  {
    var i := 0;
    while i < |blacklist|
      invariant 0 <= i <= |blacklist|
      invariant forall j :: 0 <= j < i ==> !PyText.Contains(text, blacklist[j])
    {
      if PyText.Contains(text, blacklist[i]) {
        return true;
      }
      i := i + 1;
    }
    return false;
  }

  /**
   * `load_filter_config`: `None` or `""` give no entries, a list gives its
   * items through `str`, a string gives itself, anything else nothing.
   */
  function LoadFilterConfig(cfg: Config): (r: seq<string>)
    ensures var v := Get(cfg, "blacklist", VNone);
      && (v == VNone || v == VStr("") ==> r == [])
      && (v.VList? ==> |r| == |v.items| && forall i :: 0 <= i < |r| ==> r[i] == Str(v.items[i]))
      && (v.VStr? && v.s != "" ==> r == [v.s])
      && (!v.VList? && !v.VStr? ==> r == [])
  {
    var f := Get(cfg, "blacklist", VNone);
    if f == VNone || f == VStr("") then []
    else if f.VList? then seq(|f.items|, i requires 0 <= i < |f.items| => Str(f.items[i]))
    else if f.VStr? then [f.s]
    else []
  }

  /**
   * What the loaded blacklist rejects: a non-empty string blocks titles
   * containing it, a list of strings blocks titles containing any of them,
   * and every other setting blocks nothing.
   */
  lemma BlacklistFromConfig(cfg: Config, text: string)
    ensures var v := Get(cfg, "blacklist", VNone);
      && (v.VStr? ==> (Blacklisted(text, LoadFilterConfig(cfg)) <==> v.s != "" && PyText.Contains(text, v.s)))
      && ((v.VList? && forall i :: 0 <= i < |v.items| ==> v.items[i].VStr?) ==>
            (Blacklisted(text, LoadFilterConfig(cfg)) <==>
               exists i :: 0 <= i < |v.items| && PyText.Contains(text, v.items[i].s)))
      && (!v.VList? && !v.VStr? ==> !Blacklisted(text, LoadFilterConfig(cfg)))
  {
    var v := Get(cfg, "blacklist", VNone);
    var r := LoadFilterConfig(cfg);
    if v.VList? && forall i :: 0 <= i < |v.items| ==> v.items[i].VStr? {
      assert forall i :: 0 <= i < |r| ==> r[i] == v.items[i].s;
    } else if v.VStr? && v.s != "" {
      assert r[0] == v.s;
    }
  }

  /** An empty string anywhere in a blacklist list blocks every title. */
  lemma EmptyEntryBlocksAll(cfg: Config, text: string, k: nat)
    requires Get(cfg, "blacklist", VNone).VList?
    requires k < |Get(cfg, "blacklist", VNone).items| && Get(cfg, "blacklist", VNone).items[k] == VStr("")
    ensures Blacklisted(text, LoadFilterConfig(cfg))
  {
    assert PyText.StartsAt(text, "", 0);
    assert LoadFilterConfig(cfg)[k] == "";
  }

  // ---------------------------------------------------------------------
  // Other config values
  // ---------------------------------------------------------------------

  /** `get_prefer_download_provider`: `None`, a list as it is, or one value wrapped in a list. */
  function GetPreferDownloadProvider(cfg: Config): (r: Option<seq<Value>>)
    ensures var v := Get(cfg, "downloader", VNone);
      && (r.None? <==> v == VNone)
      && (v.VList? ==> r == Some(v.items))
      && (v != VNone && !v.VList? ==> r == Some([v]))
  {
    var names := Get(cfg, "downloader", VNone);
    if names == VNone then None
    else if names.VList? then Some(names.items)
    else Some([names])
  }

  /** Normalising is stable: writing the normalised list back gives the same list. */
  lemma PreferDownloadStable(cfg: Config, cfg': Config)
    requires GetPreferDownloadProvider(cfg).Some?
    requires Get(cfg', "downloader", VNone) == VList(GetPreferDownloadProvider(cfg).value)
    ensures GetPreferDownloadProvider(cfg') == GetPreferDownloadProvider(cfg)
  {
  }

  /** `provider_enabled`: the raw `enable` value, `True` when the key is missing. */
  function ProviderEnabled(cfg: Config): (r: Value)
    ensures "enable" !in PyDict.KeySet(cfg) ==> r == VBool(true)
    ensures PyDict.Get(cfg, "enable").Some? ==> r == PyDict.Get(cfg, "enable").value
  {
    Get(cfg, "enable", VBool(true))
  }

  /** `get_download_param`: the `download_param` value, an empty dict when missing. */
  function GetDownloadParam(cfg: Config): (r: Value)
    ensures "download_param" !in PyDict.KeySet(cfg) ==> r == VDict([])
    ensures PyDict.Get(cfg, "download_param").Some? ==> r == PyDict.Get(cfg, "download_param").value
  {
    Get(cfg, "download_param", VDict([]))
  }

  // ---------------------------------------------------------------------
  // Feed items to resources
  // ---------------------------------------------------------------------

  /** A child element of a feed item: absent, or present with possibly empty text. */
  datatype Element = Absent | Present(text: Option<string>)

  /** One `<item>` of the feed, already parsed. */
  datatype FeedItem = FeedItem(title: Element, guid: Element)

  /** What `get_anime_info` extracts from a title: name, episode and the other bracket groups. */
  datatype AnimeInfo = AnimeInfo(title: string, episode: string, extra: seq<string>)

  /** The regex extraction of `get_anime_info`, left abstract. */
  type InfoParser = string -> Option<AnimeInfo>

  datatype FileType = VideoTv
  datatype LinkType = General

  /** A download resource; `fileName` is the `file_name` extra parameter. */
  datatype Resource = Resource(url: Option<string>, path: string, fileType: FileType, linkType: LinkType,
                               fileName: Option<string>)

  /** The provider's settings that the item loop reads. */
  datatype AniState = AniState(savePath: string, classificationOnDirectory: Value, customSeasons: SeasonTable)

  /** The settings right after construction. */
  const InitialState := AniState("ANi", VBool(true), [])

  /**
   * With the constructor's settings, a kept item goes to `ANi/<anime title>`
   * and only the built-in keywords decide its season.
   */
  lemma InitialStateResource(title: string, url: Option<string>, info: AnimeInfo)
    ensures ItemResource(InitialState, title, url, info).path == "ANi/" + info.title
    ensures SeasonOf(title, InitialState.customSeasons).1.Some? ==>
      (SeasonOf(title, InitialState.customSeasons).1.value, SeasonOf(title, InitialState.customSeasons).0) in BuiltinSeasons
  {
    assert "ANi" + "/" == "ANi/";
  }

  /** An item whose fields can be read without raising: a title with text, and a guid element. */
  predicate Readable(item: FeedItem) {
    item.title.Present? && item.title.text.Some? && item.guid.Present?
  }

  function TitleOf(item: FeedItem): string
    requires Readable(item)
  {
    item.title.text.value
  }

  /** The item is kept: its title parses and is not blacklisted. */
  predicate Selectable(item: FeedItem, blacklist: seq<string>, parse: InfoParser)
    requires Readable(item)
  {
    parse(TitleOf(item)).Some? && !Blacklisted(TitleOf(item), blacklist)
  }

  /** The resource built for a kept item. */
  function ItemResource(st: AniState, title: string, url: Option<string>, info: AnimeInfo): (r: Resource)
    ensures r.url == url
    ensures r.path == st.savePath <==> !Truthy(st.classificationOnDirectory)
    ensures Truthy(st.classificationOnDirectory) ==> r.path == st.savePath + "/" + info.title
    ensures r.fileName.Some? <==> SeasonOf(title, st.customSeasons).0 > 1
    ensures r.fileName.Some? ==>
      r.fileName.value == RenameSeason(title, SeasonOf(title, st.customSeasons).0, SeasonOf(title, st.customSeasons).1)
  {
    var (season, keyword) := SeasonOf(title, st.customSeasons);
    var path := st.savePath + (if Truthy(st.classificationOnDirectory) then "/" + info.title else "");
    var fileName := if season > 1 then Some(RenameSeason(title, season, keyword)) else None;
    Resource(url, path, VideoTv, General, fileName)
  }

  /** Reference: the kept items' resources, in feed order. */
  function Selected(st: AniState, items: seq<FeedItem>, blacklist: seq<string>, parse: InfoParser): seq<Resource>
    requires forall i :: 0 <= i < |items| ==> Readable(items[i])
    decreases |items|
  {
    if |items| == 0 then []
    else
      var item := items[|items| - 1];
      Selected(st, items[..|items| - 1], blacklist, parse)
        + (if Selectable(item, blacklist, parse)
           then [ItemResource(st, TitleOf(item), item.guid.text, parse(TitleOf(item)).value)]
           else [])
  }

  /** Extending the prefix by one item extends the selection by that item's resource, if it is kept. */
  lemma SelectedStep(st: AniState, items: seq<FeedItem>, i: nat, blacklist: seq<string>, parse: InfoParser)
    requires i < |items|
    requires forall j :: 0 <= j <= i ==> Readable(items[j])
    ensures Selected(st, items[..i + 1], blacklist, parse)
      == Selected(st, items[..i], blacklist, parse)
         + (if Selectable(items[i], blacklist, parse)
            then [ItemResource(st, TitleOf(items[i]), items[i].guid.text, parse(TitleOf(items[i])).value)]
            else [])
  {
    assert items[..i + 1][..i] == items[..i];
  }

  /**
   * The item loop of `get_links_from_xml`: for each item read the title,
   * extract the anime info, detect the season, read the guid; keep it if
   * the info parsed and the title is not blacklisted. Reading a missing
   * field raises, and any exception makes the whole result `[]`.
   */
  method GetLinksFromXml(st: AniState, items: seq<FeedItem>, blacklist: seq<string>, parse: InfoParser)
    returns (ret: seq<Resource>)
    ensures (forall i :: 0 <= i < |items| ==> Readable(items[i])) ==> ret == Selected(st, items, blacklist, parse)
    ensures (exists i :: 0 <= i < |items| && !Readable(items[i])) ==> ret == []
  {
    ret := [];
    var i := 0;
    while i < |items|
      invariant 0 <= i <= |items|
      invariant forall j :: 0 <= j < i ==> Readable(items[j])
      invariant ret == Selected(st, items[..i], blacklist, parse)
    {
      var item := items[i];
      if !item.title.Present? || item.title.text.None? {
        return [];
      }
      var title := item.title.text.value;
      var info := parse(title);
      var season, keyword := GetSeason(title, st.customSeasons);
      if !item.guid.Present? {
        return [];
      }
      var url := item.guid.text;
      SelectedStep(st, items, i, blacklist, parse);
      if info.Some? {
        var blocked := CheckBlacklist(title, blacklist);
        if !blocked {
          var path := st.savePath + (if Truthy(st.classificationOnDirectory) then "/" + info.value.title else "");
          var res := Resource(url, path, VideoTv, General, None);
          if season > 1 {
            res := res.(fileName := Some(RenameSeason(title, season, keyword)));
          }
          assert res == ItemResource(st, title, url, info.value);
          ret := ret + [res];
        }
      }
      i := i + 1;
    }
    assert items[..i] == items;
  }

  /** Selection keeps feed order: the result for a split feed is the two results joined. */
  lemma {:induction false} SelectedAppend(st: AniState, a: seq<FeedItem>, b: seq<FeedItem>,
                                          blacklist: seq<string>, parse: InfoParser)
    requires forall i :: 0 <= i < |a| ==> Readable(a[i])
    requires forall i :: 0 <= i < |b| ==> Readable(b[i])
    ensures forall i :: 0 <= i < |a + b| ==> Readable((a + b)[i])
    ensures Selected(st, a + b, blacklist, parse) == Selected(st, a, blacklist, parse) + Selected(st, b, blacklist, parse)
    decreases |b|
  {
    if |b| == 0 {
      assert a + b == a;
    } else {
      var ab := a + b;
      assert ab[..|ab| - 1] == a + b[..|b| - 1];
      SelectedAppend(st, a, b[..|b| - 1], blacklist, parse);
    }
  }

  /** `r` is the resource built for `item`, and `item` is kept. */
  predicate Yields(st: AniState, item: FeedItem, blacklist: seq<string>, parse: InfoParser, r: Resource)
    requires Readable(item)
  {
    Selectable(item, blacklist, parse) && r == ItemResource(st, TitleOf(item), item.guid.text, parse(TitleOf(item)).value)
  }

  /** A resource is produced exactly for the kept items. */
  lemma {:induction false} SelectedMembers(st: AniState, items: seq<FeedItem>, blacklist: seq<string>,
                                           parse: InfoParser, r: Resource)
    requires forall i :: 0 <= i < |items| ==> Readable(items[i])
    ensures r in Selected(st, items, blacklist, parse) <==>
      exists i :: 0 <= i < |items| && Yields(st, items[i], blacklist, parse, r)
    decreases |items|
  {
    if |items| > 0 {
      var n := |items| - 1;
      var pre := items[..n];
      SelectedMembers(st, pre, blacklist, parse, r);
      SelectedStep(st, items, n, blacklist, parse);
      assert items[..n + 1] == items;
      assert r in Selected(st, items, blacklist, parse) <==>
        r in Selected(st, pre, blacklist, parse) || Yields(st, items[n], blacklist, parse, r);
      if r in Selected(st, pre, blacklist, parse) {
        var i :| 0 <= i < |pre| && Yields(st, pre[i], blacklist, parse, r);
        assert pre[i] == items[i];
      }
      if exists i :: 0 <= i < |items| && Yields(st, items[i], blacklist, parse, r) {
        var i :| 0 <= i < |items| && Yields(st, items[i], blacklist, parse, r);
        if i < n { assert pre[i] == items[i]; }
      }
    }
  }

}
