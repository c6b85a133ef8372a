# Background Noise plugin: verified model of its logic

The plugin adds a sidebar panel to a note-taking application. The panel embeds
one YouTube player for each URL in a user-edited list. A settings tab shows the
list as a text area with one URL per line.

This project models the three pieces of logic in `main.ts` and proves what they
promise:

- `wrappers.dfy` (module `Wrappers`): the `Option` type. It stands for the
  source's `string | null`.
- `video_id.dfy` (module `VideoId`): `extractVideoId`. The function finds the
  leftmost place where `youtube.com/watch?v=` or `youtu.be/` is followed by a
  character other than `&`. It then takes the longest run of non-`&`
  characters after that marker.
- `id_pattern.dfy` (module `IdPattern`): an independent reading of the regular
  expression `(?:https?://)?(?:www\.)?(?:youtube\.com/watch\?v=|youtu\.be/)([^&]+)`.
  It follows the order in which a backtracking matcher tries start positions,
  optional groups, alternatives and the greedy group. It is proved equal to
  `ExtractVideoId` on every input. The argument: both markers begin with `y`,
  and none of the optional prefixes contains a `y`.
- `settings_text.dfy` (module `SettingsText`): the settings text.
  - On every edit, the text is split on `'\n'`, each line is trimmed and empty
    lines are dropped.
  - To display the list, it is joined with `'\n'`.
  - `trim` uses the exact ECMAScript set of white-space and line-terminator
    characters.
- `background_noise.dfy` (module `BackgroundNoise`): the plugin's state, held in
  classes.
  - `Plugin` holds the shared `Settings`.
  - `Container` is the view's content element, as a sequence of `Item`s.
  - `View.Render` empties the container, then appends either the
    informational paragraph or one item per URL.
  - `SettingTab.Display` and `SettingTab.OnChange` model the text area.

Two facts about the code shape the model:

- The stored list is trimmed and free of empty entries only after an edit.
  `loadSettings` takes stored data as it is, so `Plugin.LoadSettings` does not
  promise `Normalized`.
- A `loadData` that fails makes `loadSettings` fail; there is no fallback to
  the defaults. Reading stored data is outside the model. It appears only as
  the `stored` parameter of `Plugin.LoadSettings`.

## Model

| member | source | states |
|---|---|---|
| `VideoId.TakeId` | main.ts:111 | the captured run is a prefix of the text after the marker, contains no `&`, and stops at a `&` or at the end (greedy `[^&]+`) |
| `VideoId.FindMarker` | main.ts:111-112 | returns the leftmost position at or after `from` where a marker is followed by a non-`&` character, and none exists before it; returns none only if no such position exists |
| `VideoId.ExtractVideoId` | main.ts:110-114 | total; a returned id is non-empty and contains no `&`; returns none exactly when no marker is followed by a non-`&` character |
| `VideoId.ExtractVideoIdLocated` | main.ts:110-114 | a returned `id` occurs as `marker + id` in the URL, that occurrence ends at `&` or at the end of the URL, and no usable marker lies further left |
| `VideoId.ExtractIgnoresPrefix` | main.ts:111 | any prefix without `y` in front of a URL (such as `https://`, `http://` or `www.`) does not change the extracted id |
| `VideoId.BareShortLinkExample` | main.ts:111-113 | `youtu.be/dQw4w9WgXcQ` yields `dQw4w9WgXcQ` |
| `VideoId.BareWatchLinkExample` | main.ts:111-113 | `youtube.com/watch?v=dQw4w9WgXcQ&list=xyz` yields `dQw4w9WgXcQ` |
| `VideoId.ShortLinkWithQueryExample` | main.ts:111-113 | `youtu.be/abc?t=10` yields `abc?t=10`: the id runs to the next `&` and keeps `?` |
| `VideoId.FullLinkExamples` | main.ts:110-114 | `https://youtu.be/dQw4w9WgXcQ` and `https://www.youtube.com/watch?v=dQw4w9WgXcQ&list=xyz` both yield `dQw4w9WgXcQ` |
| `VideoId.NoMarkerExample` | main.ts:110-114 | a URL containing neither marker yields none |
| `IdPattern.CaptureAtMarker` | main.ts:111 | the pattern, anchored where a usable marker starts, captures the run after that marker |
| `IdPattern.CaptureAtFindsMarker` | main.ts:111 | any anchored match of the pattern captures the run after the first usable marker at or after its start |
| `IdPattern.CaptureAt` | main.ts:111 | the pattern anchored at one start position: optional scheme (`https://` tried before `http://`), optional `www.`, the two markers in order, then the greedy group; a capture is never empty and holds no `&` |
| `IdPattern.MatchFrom` | main.ts:112 | the capture of the leftmost start position at or after `p` where the anchored pattern matches; it is never empty and holds no `&` |
| `IdPattern.MatchFromSome` | main.ts:112 | when the scan finds a capture, it comes from a start position `q` where the pattern matches, and the pattern matches at no start position before `q` |
| `IdPattern.MatchFromNone` | main.ts:112 | when the scan finds nothing, the pattern matches at no start position at all |
| `IdPattern.RegexCapture` | main.ts:112-113 | group 1 of the first match (scanning from index 0), or none when nothing matches; a capture is never empty and holds no `&` |
| `IdPattern.ExtractVideoIdIsRegexCapture` | main.ts:111-113 | for every URL, `ExtractVideoId` equals group 1 of the leftmost match of the regular expression, or none when nothing matches |
| `SettingsText.Trim` | main.ts:140 | the result has no white space at either end; a trimmed string is unchanged; the result is empty exactly when the string is all white space |
| `SettingsText.IsWhitespace` | main.ts:140 | the characters `trim` removes (the ECMAScript white-space and line-terminator set); none of them is a letter, a digit or one of `& / . : ? =`, so trimming never removes part of a URL's own text |
| `SettingsText.TrimStart` | main.ts:140 | the result is a suffix of the text, every character removed in front of it is white space, and it does not start with white space |
| `SettingsText.TrimEnd` | main.ts:140 | the result is a prefix of the text, every character removed after it is white space, and it does not end with white space |
| `SettingsText.TrimStrips` | main.ts:140 | trimming white space + `t` + white space gives `t` |
| `SettingsText.Split` | main.ts:139 | there is always at least one piece, so the empty text gives one empty piece |
| `SettingsText.SplitSeparatorFree` | main.ts:139 | no piece contains the separator |
| `SettingsText.SplitCount` | main.ts:139 | there is one piece more than there are separators |
| `SettingsText.Join` | main.ts:136 | the pieces one after another with the separator between neighbours; the text starts with the first piece |
| `SettingsText.JoinCount` | main.ts:136 | separator-free pieces are joined with exactly one separator fewer than there are pieces, the converse of `SplitCount` |
| `SettingsText.JoinSplit` | main.ts:136-139 | joining the pieces of a split with the separator restores the text |
| `SettingsText.SplitJoin` | main.ts:136-139 | splitting the join of separator-free pieces restores the pieces |
| `SettingsText.KeepNonEmpty` | main.ts:141 | keeps no empty entry; keeps every non-empty entry as many times as it occurs (duplicates are kept) |
| `SettingsText.KeepNonEmptyAppend` | main.ts:141 | filtering a concatenation gives the concatenation of the filtered parts, so the kept entries stay in order |
| `SettingsText.TrimmedLines` | main.ts:138-140 | one line per line feed of the text plus one; every line is trimmed and contains no `'\n'` |
| `SettingsText.TrimEach` | main.ts:140 | one entry per piece, in place; each entry is trimmed and made only of its piece's characters |
| `SettingsText.Normalize` | main.ts:138-141 | every stored URL is non-empty, has no white space at either end and contains no `'\n'` |
| `SettingsText.NormalizeKeepsEveryLine` | main.ts:138-141 | every non-empty trimmed line is stored as many times as it occurs, and nothing else is stored |
| `SettingsText.NormalizeAround` | main.ts:138-141 | text joined at a line feed is stored as the two halves' lists concatenated, so each line is handled on its own and in order |
| `SettingsText.NormalizeLine` | main.ts:138-141 | a single line is stored trimmed, or not at all when it trims to nothing |
| `SettingsText.NormalizePaddedLine` | main.ts:138-141 | a blank line is dropped; a line with text is stored without its padding |
| `SettingsText.NormalizeJoin` | main.ts:136-141 | round trip: a normalised list, shown joined with `'\n'` and saved again without edits, is stored unchanged |
| `SettingsText.NormalizeIdempotent` | main.ts:136-141 | showing a stored list and saving it again changes nothing |
| `SettingsText.NormalizeExample` | main.ts:138-141 | the text `" a \n\nb \n "` is stored as `["a", "b"]` |
| `BackgroundNoise.EmbedSrc` | main.ts:94 | the embed address is `https://www.youtube.com/embed/`, the id, the query `?autoplay=1&loop=1&playlist=`, then the id again; its length is fixed by the id's |
| `BackgroundNoise.ItemFor` | main.ts:89-100 | a player exactly when the URL has an id, addressed by `EmbedSrc` of that id; otherwise the paragraph `Invalid URL: ` + the URL |
| `BackgroundNoise.ItemsFor` | main.ts:88-101 | one element per URL |
| `BackgroundNoise.ItemsForAt` | main.ts:88-101 | the element at position `k` is the one for `urls[k]`, so the elements follow the URLs' order |
| `BackgroundNoise.Rendered` | main.ts:82-101 | an empty list gives the informational paragraph alone; otherwise one element per URL, in order, and no informational paragraph |
| `BackgroundNoise.RenderedAt` | main.ts:88-101 | for a non-empty list there is one item per URL. Item `i` is a player iff `urls[i]` has an id, and its src is `https://www.youtube.com/embed/` + id + `?autoplay=1&loop=1&playlist=` + id. Otherwise item `i` is `Invalid URL: ` + `urls[i]` |
| `BackgroundNoise.RenderedEmpty` | main.ts:82-85 | an empty list renders as exactly one informational paragraph and no player |
| `BackgroundNoise.EmbedSrcInjective` | main.ts:94 | different ids give different embed addresses |
| `BackgroundNoise.Container.Empty` | main.ts:80 | the container has no children afterwards |
| `BackgroundNoise.Container.Append` | main.ts:97 | the item becomes the new last child, and the earlier children are unchanged |
| `BackgroundNoise.Plugin.constructor` | main.ts:8-10 | the model's plugin starts with the default settings, an empty URL list (see "Left out" for how the code differs) |
| `BackgroundNoise.Plugin.LoadSettings` | main.ts:36-38 | the stored `videoUrls` is taken when present, else the default empty list |
| `BackgroundNoise.View.constructor` | main.ts:61-64 | the view is bound to the plugin whose settings it renders and to its content container |
| `BackgroundNoise.View.Render` | main.ts:78-102 | afterwards the container holds exactly `Rendered(videoUrls)`, whatever it held before; only the container changes |
| `BackgroundNoise.RenderTwice` | main.ts:78-80 | rendering twice leaves the same contents as rendering once (idempotence) |
| `BackgroundNoise.SettingTab.constructor` | main.ts:119-122 | the tab is bound to the plugin whose settings it edits; its text area starts empty until `Display` fills it |
| `BackgroundNoise.SettingTab.Display` | main.ts:136 | the text area shows the stored list joined with `'\n'` |
| `BackgroundNoise.SettingTab.OnChange` | main.ts:137-141 | the stored list is replaced wholesale by `Normalize(value)`, which is normalised; the rest of the settings is unchanged |
| `BackgroundNoise.RedisplayAndResave` | main.ts:136-141 | displaying a normalised list and re-saving the unedited text leaves the settings unchanged |

## Left out

- The host application's lifecycle and workspace calls are not modelled.
  These are `onload`, `registerView`, `addSettingTab`, `onLayoutReady`,
  `activateView`, `onunload`, `onOpen` and `onClose` (main.ts:17-34, 49-55,
  74-76, 104-107). They call an API whose code is not part of this model.
- `loadData` and `saveData` are not modelled; they are asynchronous host
  storage. `LoadSettings` receives the stored `videoUrls` as a parameter of
  type list of strings, so the model assumes the stored value is a list of
  strings. The code does not check this. `null`, a number or a non-empty string
  makes `render` throw at main.ts:82 or main.ts:88. A list holding a non-string
  throws at main.ts:112. An empty string renders the informational paragraph.
- BackgroundNoise.Plugin.constructor: starts the settings at the default
  value. In the code, the `settings` field (main.ts:15) has no initialiser and
  is undefined until `loadSettings` (main.ts:37) assigns it, which `onload`
  awaits first (main.ts:18). No modelled operation runs before that
  assignment, so none can see the difference.
- The refresh of every open view after a save (main.ts:42-46) is not
  modelled; it enumerates host workspace leaves. Each `View.Render` stands on
  its own.
- `SettingTab.OnChange` does not model the `saveSettings` call that ends the
  handler. That call is host storage followed by the refresh above.
- Presentation details are not modelled: the iframe's width, height, `allow`
  and border (main.ts:92-96), the heading (main.ts:129), the setting's name
  and description, and the text area height (main.ts:146). The header child
  `containerEl.children[0]` is not modelled either; `Container` is only the
  content element `children[1]`.
- No general regular-expression engine is modelled by
  `VideoId.ExtractVideoId`. It models only the fixed pattern of main.ts:111. Module `IdPattern`
  gives that pattern's match semantics, and the two are proved equal.
- The id is not escaped before it is placed into the embed address, and the
  model does not escape it either. An id can contain `?`, `#`, `/` or
  `"` (see `ShortLinkWithQueryExample`).
- Strings are sequences of Unicode scalar values. JavaScript's `[^&]`,
  `trim`, `split` and `length` work on UTF-16 code units. The two agree on
  well-formed text, which is all the model covers; a lone surrogate cannot be
  represented.
- The white-space set of `SettingsText.IsWhitespace` is that of the ECMAScript
  `trim`, written as an explicit list. That list's space separators are those of
  current Unicode; a later Unicode version could add more.
