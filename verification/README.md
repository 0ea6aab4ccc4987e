# kubespider source manager and ANi provider, in Dafny

This project models two pieces of kubespider.

**The source manager** (`SourceManager`) keeps a table of source-provider instances keyed by id.
- `reload_instance` rebuilds the table from the instance configurations.
- `search` and `schedule` fan a call out to every instance that advertises the matching capability and concatenate the `data` lists that come back.
- `active_provider_instance` delegates to one instance by id.
- `get_specs` concatenates the specs of every provider type.
- `init_app` registers the manager on the web application once.

**The ANi source provider** (`AniSourceProvider`) turns the ANi release feed into download resources.
- It detects the season from keywords in the title.
- It renames season-2-and-later episodes to `S<season>E<episode>`.
- It drops blacklisted titles.
- It normalises its config values.

Python data is modelled explicitly:
- `PyValue.Value` is a configuration value: `None`, bool, int, str, list or dict (floats are left out).
- `PyDict.Dict` is an insertion-ordered dict, kept as a sequence of pairs. Lookup takes the first pair with the key. Assigning to an existing key keeps its position; assigning to a new key appends it. `search` relies on this iteration order.
- `PyText` holds the parts of `str` the provider uses: `in`, `replace`, `str(int)` and `zfill`. `FindFrom`, a left-to-right search for a substring, is the helper `replace` is built on.
- `EpisodeTag` is the one `re.sub` of `rename_season`, written out as a deterministic left-to-right matcher. A match at a given position is unique because the digit run is greedy and no alternative of a group is a prefix of another: `720P`, `1080P` and `4K` differ at the first character, `Baha` and `Bilibili` at the second.

A few parts become parameters because their code is not part of this model:
- the instance constructor (`SdkSourceProvider`) is a `Builder`, which may fail;
- each instance's answers are a `Responder`, which returns `Ok(data)` or `Fail`;
- each provider type's `spec()` is a function parameter;
- `get_anime_info` is an `InfoParser`.

Two behaviours of the code are worth stating plainly, because a reader might expect otherwise:
- **Reload does not skip malformed configurations.** A configuration that raises aborts `reload_instance`. That is any configuration that is not a dict, whether enabled or not, because reading `enable` from it already raises. It is also any enabled dict whose `conf`, `instance_params`, parameters, `id` or constructor call raises. The table is assigned only after the loop, so the old table stays in place (`SourceManager.Reload`).
- **`schedule` calls the instances' search entry point.** It filters on the schedule capability but calls `instance.search`, without a keyword (`SourceManager.Schedule`; see Findings).

## Model

| member | source | states |
|---|---|---|
| PyDict.Put | kubespider/core/middleware/source_provider/manager.py:22 | After `d[k] = v`, `k` maps to `v` and the key set gains `k`. An existing key keeps its position; a new key is appended. Unique keys stay unique. |
| PyDict.GetPutOther | kubespider/core/middleware/source_provider/manager.py:21-22 | Assigning one key never changes the value of any other key. |
| PyValue.Iterate | kubespider/core/middleware/source_provider/manager.py:21 | `for item in v` visits a list's items, a string's one-character strings or a dict's keys. Any other value is not iterable. |
| SourceManager.CollectParams | kubespider/core/middleware/source_provider/manager.py:21 | Building the parameter dict succeeds iff every item is a dict whose `name` is hashable. The result never repeats a name. |
| SourceManager.ParamsLastWins | kubespider/core/middleware/source_provider/manager.py:21 | For every name, the parameter dict holds the value of the last item with that name (reference `LastValueFor`). |
| SourceManager.AsKeywords | kubespider/core/middleware/source_provider/manager.py:22-25 | `**init_params` is accepted iff every name is a string other than `bin_path` and `pid`. |
| SourceManager.KeywordsLookup | kubespider/core/middleware/source_provider/manager.py:22-25 | The keyword arguments the constructor receives answer every name as the parameter dict did. |
| SourceManager.Step | kubespider/core/middleware/source_provider/manager.py:18-25 | A non-dict configuration raises. A dict configuration is skipped iff `enable` is falsy. An enabled one raises on a missing `conf` or `id`, a non-dict `conf`, non-iterable `instance_params`, a bad parameter item or name, a failing constructor, or an unhashable id. When none of these happens it yields an instance. A built instance is stored under its own hashable `id`. It is what the constructor made of `conf.get("bin")`, the id and the keyword parameters. |
| SourceManager.LoadAll | kubespider/core/middleware/source_provider/manager.py:17-25 | The loop completes iff every configuration's step succeeds. The built table never repeats an id, and every instance sits under its own id. |
| SourceManager.LoadAllKeys | kubespider/core/middleware/source_provider/manager.py:17-25 | The built table's ids are exactly the ids of the enabled configurations. |
| SourceManager.LoadAllLastWins | kubespider/core/middleware/source_provider/manager.py:22 | For every id, the table holds the instance built from the last enabled configuration with that id (reference `LastBuilt`). |
| SourceManager.LoadAllKeyOrder | kubespider/core/middleware/source_provider/manager.py:17-25 | Table order is the order in which ids were first enabled. Repeats keep their first position. |
| SourceManager.Reload | kubespider/core/middleware/source_provider/manager.py:16-28 | On any error the previous table is kept unchanged. Reload completes iff every step succeeds. A completed reload has unique ids, exactly the enabled ids, and the last-built instance per id. |
| SourceManager.InitApp | kubespider/core/middleware/source_provider/manager.py:43-52 | A second registration raises and changes nothing. Otherwise the manager is registered before the reload. The table and the success or failure are exactly those of `reload_instance`, so the enabled ids on success and the old table on failure. |
| SourceManager.ReloadIdempotent | kubespider/core/middleware/source_provider/manager.py:16-27 | With the same configurations and constructor, reloading twice gives what reloading once gave: the new table never depends on the old one. |
| SourceManager.SecondInitRaises | kubespider/core/middleware/source_provider/manager.py:43-51 | A second `init_app` on the same application raises the already-registered error, whatever the first call did. The name is stored before the reload runs, so even a failed reload leaves it registered. |
| SourceManager.CatalogueMembers | kubespider/core/middleware/source_provider/manager.py:30-35 | A spec is in the catalogue iff some provider type lists it. |
| SourceManager.GetSpecs | kubespider/core/middleware/source_provider/manager.py:30-35 | The loop returns the provider types' specs concatenated in provider order (reference `Catalogue`). An item is included iff some provider lists it. |
| SourceManager.ActiveProviderInstance | kubespider/core/middleware/source_provider/manager.py:54-59 | It raises iff `pid` is unhashable, and returns `False` iff `pid` is hashable and not in the table. Otherwise it returns the `active` answer of the instance stored under `pid`. |
| SourceManager.ActivationReadsOnlyPid | kubespider/core/middleware/source_provider/manager.py:54-59 | Activation depends only on the table entry for the requested id: two tables that agree there give the same answer, so no other instance is read. |
| SourceManager.ActivationAfterReload | kubespider/core/middleware/source_provider/manager.py:54-59 | After a completed reload, activation returns `False` exactly for ids no enabled configuration carries. Otherwise it asks the instance built last for that id. |
| SourceManager.Dispatch | kubespider/core/middleware/source_provider/manager.py:61-81 | The shared loop of `search` and `schedule` returns the reference fan-out. That is, in table order, each capable instance contributes its `data`, `[]` when `data` is missing, and nothing when the call raised. |
| SourceManager.FanOutAppend | kubespider/core/middleware/source_provider/manager.py:61-70 | Fan-out over a split table is the two halves' results joined in order. |
| SourceManager.FanOutContiguous | kubespider/core/middleware/source_provider/manager.py:63-67 | Each instance's items form one contiguous block, in their own order, between the results of the entries before and after it. |
| SourceManager.FanOutSkipsFailure | kubespider/core/middleware/source_provider/manager.py:65-69 | An instance that raises or lacks the capability can be removed from the table without changing the result. |
| SourceManager.FanOutNothing | kubespider/core/middleware/source_provider/manager.py:61-81 | With no capable instance, or every capable instance raising, the result is `[]`. |
| SourceManager.FanOutCallsOnlyEligible | kubespider/core/middleware/source_provider/manager.py:72-81 | Instances lacking the capability are never consulted. Responders that agree on the capable instances give the same result. |
| SourceManager.FanOutMembers | kubespider/core/middleware/source_provider/manager.py:61-70 | An item is in the result iff some capable instance returned it. |
| SourceManager.ScheduleUsesSearchEntry | kubespider/core/middleware/source_provider/manager.py:72-81 | The result of `schedule` is fixed by how the schedule-capable instances alone answer a keyword-less search; responders that agree on those instances give the same result. |
| SourceManager.Search | kubespider/core/middleware/source_provider/manager.py:61-70 | An item is in the `search` result iff some search-capable instance's search call, with the keyword, returned it. |
| SourceManager.Schedule | kubespider/core/middleware/source_provider/manager.py:72-81 | As written: an item is in the `schedule` result iff some schedule-capable instance returned it from a keyword-less search call. |
| SourceManager.ScheduleIntended | kubespider/core/middleware/source_provider/manager.py:72-81 | Corrected: an item is in the result iff some schedule-capable instance's schedule entry point returned it. |
| SourceManager.ScheduleDiscrepancy | kubespider/core/middleware/source_provider/manager.py:75-77 | A concrete table where `schedule` as written returns `[]` and the intended `schedule` returns `[1]`. |
| SourceManager.TwoInstanceScenario | kubespider/core/middleware/source_provider/manager.py:61-81 | Take A with {search} and B with {search, schedule}. `search` gives A's items then B's, or only B's when A raises. `schedule` consults only B. |
| AniProvider.GetSeason | kubespider/source_provider/ani_source_provider/provider.py:51-75 | The two loops return the reference season: the last matching custom keyword, else the last matching built-in keyword, else `(1, None)`. |
| AniProvider.LastMatchNone | kubespider/source_provider/ani_source_provider/provider.py:66-73 | A table yields no match iff none of its keywords occurs in the title. |
| AniProvider.LastMatchIsLast | kubespider/source_provider/ani_source_provider/provider.py:66-73 | The entry found is the matching one that no later matching entry follows. |
| AniProvider.SeasonOf | kubespider/source_provider/ani_source_provider/provider.py:51-75 | No keyword comes back iff no custom or built-in keyword occurs in the title, and then the season is 1. A returned keyword occurs in the title and comes, with its season, from one of the two tables. It comes from the custom table whenever some custom keyword occurs. |
| AniProvider.SeasonAboveOneHasKeyword | kubespider/source_provider/ani_source_provider/provider.py:51-75 | A season other than 1 always comes with the keyword that produced it. |
| AniProvider.SeasonDefault | kubespider/source_provider/ani_source_provider/provider.py:51-75 | With no built-in or custom keyword in the title, the result is `(1, None)`. |
| AniProvider.SeasonCustomOverrides | kubespider/source_provider/ani_source_provider/provider.py:65-73 | A matching custom keyword decides whatever built-in keywords match. The last matching custom keyword wins. |
| AniProvider.SeasonBuiltinLast | kubespider/source_provider/ani_source_provider/provider.py:54-69 | Without a custom match, the last matching built-in keyword in table order decides, and it is returned. |
| AniProvider.RenameSeasonShape | kubespider/source_provider/ani_source_provider/provider.py:77-82 | A title without the keyword and with one episode tag keeps its text and has the tag rewritten to `S` plus the two-digit season. |
| AniProvider.RenameSeason | kubespider/source_provider/ani_source_provider/provider.py:77-82 | A title without ` keyword` and without `- ` comes back unchanged. Renaming never shortens the title once the keyword is gone. |
| AniProvider.StripKeywordOnce | kubespider/source_provider/ani_source_provider/provider.py:78 | A keyword that occurs once, after a space, is removed together with the space and nothing else changes. |
| AniProvider.RenameSeasonRemovesKeyword | kubespider/source_provider/ani_source_provider/provider.py:77-82 | A title with the keyword once before one episode tag loses ` keyword`. Its tag becomes `- S<tens><units>E<episode> [res][src]`. |
| PyText.ReplaceIsScan | kubespider/source_provider/ani_source_provider/provider.py:78 | `str.replace` as find-and-continue agrees with a left-to-right scan that replaces every non-overlapping occurrence. |
| PyText.Replace | kubespider/source_provider/ani_source_provider/provider.py:78 | Without an occurrence the text is unchanged. Replacing with `""` never lengthens it, and shortens it by at least the pattern when the pattern occurs. |
| PyText.ReplaceOnce | kubespider/source_provider/ani_source_provider/provider.py:78 | With its first occurrence right after `a` and none after it, the pattern is replaced exactly once. |
| PyText.NatToStr | kubespider/source_provider/ani_source_provider/provider.py:80 | `str(n)` is a non-empty digit string that denotes `n`. It has one digit iff `n < 10`, and no leading zero. |
| PyText.ZFill | kubespider/source_provider/ani_source_provider/provider.py:80 | The result has length `max(len(s), width)`, and `s` itself when already that long. Otherwise zeros are put in front, after a leading sign if there is one, and the rest of `s` follows. |
| PyText.ZFillNat | kubespider/source_provider/ani_source_provider/provider.py:80 | `str(n).zfill(w)` is all digits, has length `max(w, len(str(n)))`, and still denotes `n`. |
| PyText.ZFillTwoDigits | kubespider/source_provider/ani_source_provider/provider.py:80 | For `n < 100`, `str(n).zfill(2)` is exactly the tens digit followed by the units digit: `02` … `10` … `99`. |
| EpisodeTag.MatchPrefix | kubespider/source_provider/ani_source_provider/provider.py:79 | A match found at the start of a text is a well-formed tag, and the text is that tag rendered, followed by the rest. |
| EpisodeTag.MatchRender | kubespider/source_provider/ani_source_provider/provider.py:79 | Every rendered tag is matched at the start of a text, whatever follows it. |
| EpisodeTag.SubPlainPrefix | kubespider/source_provider/ani_source_provider/provider.py:81 | Text before the first `- ` is copied unchanged by the substitution. |
| EpisodeTag.Sub | kubespider/source_provider/ani_source_provider/provider.py:81 | Substitution never shortens the text, and a text with no `- ` is returned unchanged. |
| EpisodeTag.SubSingleTag | kubespider/source_provider/ani_source_provider/provider.py:79-81 | Text free of `- ` around one tag comes back with only the tag rewritten. |
| AniProvider.CheckBlacklist | kubespider/source_provider/ani_source_provider/provider.py:180-185 | True iff some blacklist entry occurs in the text. An empty blacklist always gives false. |
| AniProvider.LoadFilterConfig | kubespider/source_provider/ani_source_provider/provider.py:168-178 | `None` or `""` gives `[]`. A list gives its items through `str`, same length and order. Another string gives itself. Anything else gives `[]`. |
| AniProvider.BlacklistFromConfig | kubespider/source_provider/ani_source_provider/provider.py:168-185 | With the blacklist loaded from config, a string setting blocks exactly the titles containing it, or none when empty. A list of strings blocks titles containing any entry. Any other setting blocks nothing. |
| AniProvider.EmptyEntryBlocksAll | kubespider/source_provider/ani_source_provider/provider.py:173-185 | A list setting holding an empty string at any position blocks every title. |
| AniProvider.GetPreferDownloadProvider | kubespider/source_provider/ani_source_provider/provider.py:84-90 | A missing or `None` downloader gives `None`. A list is returned as it is; any other value is wrapped in a one-element list. |
| AniProvider.PreferDownloadStable | kubespider/source_provider/ani_source_provider/provider.py:84-90 | Writing the normalised downloader list back into the config and reading it again gives the same list. |
| AniProvider.ProviderEnabled | kubespider/source_provider/ani_source_provider/provider.py:98-99 | A missing `enable` gives `True`. A present one is returned as it is. |
| AniProvider.GetDownloadParam | kubespider/source_provider/ani_source_provider/provider.py:92-93 | A missing `download_param` gives an empty dict. A present one is returned as it is. |
| AniProvider.InitialStateResource | kubespider/source_provider/ani_source_provider/provider.py:32-37 | With the constructor's settings (`save_path` `ANi`, directories on, no custom mapping), a kept item goes to `ANi/<anime title>`. A keyword found in the title comes, with its season, from the built-in table. |
| AniProvider.ItemResource | kubespider/source_provider/ani_source_provider/provider.py:135-145 | The resource's url is the guid text. Its path is `save_path + "/" + title` when the directory setting is truthy and `save_path` otherwise. A `file_name` is set iff the season is above 1, and is then the renamed title. |
| AniProvider.GetLinksFromXml | kubespider/source_provider/ani_source_provider/provider.py:121-153 | With every item readable, the loop returns the reference selection: one resource per item whose title parses and is not blacklisted, in feed order. An item whose title text or guid element is missing makes the whole result `[]`. |
| AniProvider.SelectedAppend | kubespider/source_provider/ani_source_provider/provider.py:127-149 | Selection keeps feed order: the result for a split feed is the two results joined. |
| AniProvider.SelectedMembers | kubespider/source_provider/ani_source_provider/provider.py:127-149 | A resource is produced iff it is the resource of some kept item. |

## Left out

- The log-drain thread `output_skd_provider_log` (manager.py:83-91) is left out. It is an endless loop of blocking pipe reads and sleeps, which is concurrency and I/O.
- Thread start in `init_app` is left out. The application context, and the manager object stored in `app.extensions`, are modelled only as the set of registered extension names.
- The `SdkSourceProvider` constructor and subprocess handling are not part of this model. Construction is the `Builder` parameter, which returns the instance's name and capabilities or fails.
- What each instance answers is not modelled. Its `search`, `schedule` and `active` are the `Responder` and `active` parameters.
- A non-dict response, or a `data` value that cannot be appended to a list, is folded into `Fail`, since Python raises in both cases. A non-list `data` that Python can still iterate and append, such as a string, is not modelled separately.
- `SdkSourceProvider` is not modelled. `active_provider_instance` treats every stored instance as truthy.
- Python's `True == 1` key equality is not modelled. Configuration values compare structurally, so `VBool(true)` and `VInt(1)` are different ids.
- Logging calls are left out everywhere. They have no effect on results.
- `get_links` (provider.py:107-119) is left out: the HTTP fetch, the temporary file and the XML parse are I/O. Feed items arrive already parsed as title and guid elements.
- `get_anime_info` (provider.py:155-166) is the abstract `InfoParser`. Its lazy regex is not modelled.
- `load_config` (provider.py:190-194) and the trivial getters are not modelled. The item loop reads its settings from `AniState`. `InitialState` holds the constructor's values for the three settings the loop reads, and `AniProvider.InitialStateResource` states what they give. The constructor's other fields are not modelled.
- The custom season mapping is a table of string-to-int pairs. Nothing in provider.py fills it; only `__init__` (provider.py:37) sets it to `{}`. Being a dict, it has distinct keywords, but `AniProvider.SeasonOf` and `AniProvider.GetSeason` do not require that. With a repeated keyword they would answer for the later entry, which no dict iteration produces.
- Floats are not among the modelled configuration values. A float `enable` or `id`, the truthiness of `0.0`, and `str` of a float inside `load_filter_config` are not covered.
- Python's `\d` also matches non-ASCII digits. The episode matcher accepts ASCII digits only.
- `repr` of strings does not escape quotes or control characters. This only affects `str` of list items in `load_filter_config`.
- `PyText.Replace` requires a non-empty pattern. The pattern the provider replaces, `" " + keyword`, is never empty.
- AniProvider.RenameSeasonRemovesKeyword: the claim that renaming removes every occurrence of `" " + keyword` is stated only for a keyword that occurs once. In general, `str.replace` can create a new occurrence by joining the text on both sides of a removed one: removing `" x"` from `"  xx"` leaves `" x"`. `PyText.ReplaceIsScan` states what `replace` does on every input.
- EpisodeTag.SubSingleTag: the rewrite is proved for text with one episode tag and no other `- ` around it. `EpisodeTag.Sub` itself handles any number of matches.

## Findings

| source | as written | input that shows it | evidently intended | confidence | as-written member | corrected member |
|---|---|---|---|---|---|---|
| kubespider/core/middleware/source_provider/manager.py:75-77 | `schedule` selects instances by the schedule capability but calls `instance.search(sync, **kwargs)` | one instance with only the schedule capability, whose schedule call returns `[1]` and whose search call raises: `schedule` returns `[]` | call the instance's schedule entry point, as the capability filter and the "schedule failed" log message indicate | high, not executed | SourceManager.ScheduleDiscrepancy | SourceManager.ScheduleIntended |
