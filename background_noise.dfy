/**
 * The plugin's state and its sidebar view: the settings object holding the
 * URL list, the view that renders one player per URL into its container,
 * and the settings tab that shows and re-stores the list.
 */
module BackgroundNoise {
  import opened Wrappers
  import opened VideoId
  import opened SettingsText

  /** `BackgroundNoiseSettings`: the configured URLs, in display order. */
  datatype Settings = Settings(videoUrls: seq<string>)

  /** The settings the plugin falls back to: no URL configured. */
  const DefaultSettings: Settings := Settings([])

  /** The text shown when no URL is configured. */
  const NoVideosText: string := "No videos configured. Please add YouTube URLs in the plugin settings."

  /** What a view's container holds: a paragraph of information, a player, or a diagnostic line. */
  datatype Item = Info(text: string) | Player(src: string) | Invalid(text: string)

  /** The address of the embedding player, up to the identifier. */
  const EmbedBase: string := "https://www.youtube.com/embed/"

  /** The query between the two copies of the identifier: autoplay, and loop over a one-entry playlist. */
  const LoopQuery: string := "?autoplay=1&loop=1&playlist="

  /** The embed address of a video: the identifier appears as the path and as the one-entry playlist. */
  function EmbedSrc(id: string): (src: string)
    ensures |src| == |EmbedBase| + |LoopQuery| + 2 * |id|
    ensures EmbedBase <= src
    ensures src[|EmbedBase|..|EmbedBase| + |id|] == id
    ensures src[|EmbedBase| + |id|..|src| - |id|] == LoopQuery
    ensures src[|src| - |id|..] == id
  {
    EmbedBase + id + LoopQuery + id
  }

  /** The diagnostic shown in place of a player for a URL without an identifier. */
  function InvalidText(url: string): string {
    "Invalid URL: " + url
  }

  /** The element appended for one URL: a player exactly when the URL has an identifier, else a diagnostic naming the URL. */
  function ItemFor(url: string): (item: Item)
    ensures item.Player? <==> ExtractVideoId(url).Some?
    ensures item.Player? ==> item.src == EmbedSrc(ExtractVideoId(url).value)
    ensures !item.Player? ==> item == Invalid(InvalidText(url))
  {
    match ExtractVideoId(url)
    case Some(id) => Player(EmbedSrc(id))
    case None => Invalid(InvalidText(url))
  }

  /** The elements appended for `urls`: one per URL (see ItemsForAt for which). */
  function ItemsFor(urls: seq<string>): (items: seq<Item>)
    ensures |items| == |urls|
  {
    if urls == [] then [] else ItemsFor(urls[..|urls| - 1]) + [ItemFor(urls[|urls| - 1])]
  }

  /** The element at position `k` of ItemsFor(urls) is the one for `urls[k]`, so the URLs' order is kept. */
  lemma {:induction false} ItemsForAt(urls: seq<string>)
    ensures forall k :: 0 <= k < |urls| ==> ItemsFor(urls)[k] == ItemFor(urls[k])
  {
    if urls != [] {
      var init := urls[..|urls| - 1];
      ItemsForAt(init);
      forall k | 0 <= k < |urls|
        ensures ItemsFor(urls)[k] == ItemFor(urls[k])
      {
        if k < |init| {
          assert ItemsFor(urls)[k] == ItemsFor(init)[k];
          assert init[k] == urls[k];
        }
      }
    }
  }

  /** Rendering one more URL appends its element. */
  lemma ItemsForSnoc(urls: seq<string>, i: nat)
    requires i < |urls|
    ensures ItemsFor(urls[..i + 1]) == ItemsFor(urls[..i]) + [ItemFor(urls[i])]
  {
    assert urls[..i + 1][..i] == urls[..i];
  }

  /**
   * What the container holds after rendering `urls`: the informational
   * paragraph alone for an empty list, and otherwise one element per URL at
   * the URL's position and no informational paragraph.
   */
  function Rendered(urls: seq<string>): (items: seq<Item>)
    ensures urls == [] ==> items == [Info(NoVideosText)]
    ensures urls != [] ==> |items| == |urls| && forall k :: 0 <= k < |urls| ==> items[k] == ItemFor(urls[k]) && !items[k].Info?
  {
    ItemsForAt(urls);
    if urls == [] then [Info(NoVideosText)] else ItemsFor(urls)
  }

  /**
   * Rendering a non-empty list yields exactly one element per URL, at the
   * URL's position: a player addressed by the URL's identifier when it has
   * one, and otherwise the diagnostic naming the URL.
   */
  lemma RenderedAt(urls: seq<string>, i: nat)
    requires urls != [] && i < |urls|
    ensures |Rendered(urls)| == |urls|
    ensures Rendered(urls)[i].Player? <==> ExtractVideoId(urls[i]).Some?
    ensures ExtractVideoId(urls[i]).Some? ==> Rendered(urls)[i] == Player(EmbedSrc(ExtractVideoId(urls[i]).value))
    ensures ExtractVideoId(urls[i]).None? ==> Rendered(urls)[i] == Invalid(InvalidText(urls[i]))
  {
  }

  /** An empty list renders as the one informational paragraph, and no player. */
  lemma RenderedEmpty()
    ensures Rendered([]) == [Info(NoVideosText)]
    ensures forall k :: 0 <= k < |Rendered([])| ==> !Rendered([])[k].Player?
  {
  }

  /** Distinct identifiers get distinct embed addresses: the address names its video. */
  lemma EmbedSrcInjective(a: string, b: string)
    requires EmbedSrc(a) == EmbedSrc(b)
    ensures a == b
  {
    assert |a| == |b|;
  }

  /**
   * The content element of a `BackgroundNoiseView` (the second child of its
   * root element): the element the view draws into, with its children in
   * document order.
   */
  class Container {
    var children: seq<Item>

    constructor ()
      ensures children == []
    {
      children := [];
    }

    /** Removes every child. */
    method Empty()
      modifies this
      ensures children == []
    {
      children := [];
    }

    /** Adds a new last child, as appending an iframe or creating a paragraph does. */
    method Append(item: Item)
      modifies this
      ensures children == old(children) + [item]
    {
      children := children + [item];
    }
  }

  /** `BackgroundNoisePlugin`: owns the settings every view and the settings tab share. */
  class Plugin {
    var settings: Settings

    constructor ()
      ensures settings == DefaultSettings
    {
      settings := DefaultSettings;
    }

    /**
     * `loadSettings`: the stored data's `videoUrls` when the stored data
     * carries that field (`stored` is then `Some`), and the default empty
     * list otherwise. The stored value is taken as it is.
     */
    method LoadSettings(stored: Option<seq<string>>)
      modifies this
      ensures settings.videoUrls == if stored.Some? then stored.value else DefaultSettings.videoUrls
    {
      settings := DefaultSettings;
      if stored.Some? {
        settings := settings.(videoUrls := stored.value);
      }
    }
  }

  /** `BackgroundNoiseView`: a sidebar panel drawing the plugin's URL list into its container. */
  class View {
    const plugin: Plugin
    const container: Container

    constructor (plugin: Plugin, container: Container)
      ensures this.plugin == plugin && this.container == container
    {
      this.plugin := plugin;
      this.container := container;
    }

    /**
     * `render`: empties the container, then shows the informational paragraph
     * when no URL is configured, and otherwise appends one element per URL in
     * order. The result does not depend on what the container held before, so
     * rendering again with unchanged settings changes nothing.
     */
    method Render()
      modifies container
      ensures container.children == Rendered(plugin.settings.videoUrls)
    {
      container.Empty();
      var urls := plugin.settings.videoUrls;
      if |urls| == 0 {
        container.Append(Info(NoVideosText));
        return;
      }
      var i := 0;
      while i < |urls|
        invariant 0 <= i <= |urls|
        invariant container.children == ItemsFor(urls[..i])
      {
        var url := urls[i];
        var item: Item;
        match ExtractVideoId(url) {
          case Some(id) =>
            item := Player(EmbedSrc(id));
          case None =>
            item := Invalid(InvalidText(url));
        }
        ItemsForSnoc(urls, i);
        container.Append(item);
        i := i + 1;
      }
      assert urls[..i] == urls;
    }
  }

  /** Two renders in a row leave what one render leaves. */
  method RenderTwice(view: View)
    modifies view.container
    ensures view.container.children == Rendered(view.plugin.settings.videoUrls)
  {
    view.Render();
    var once := view.container.children;
    view.Render();
    assert view.container.children == once;
  }

  /** `BackgroundNoiseSettingTab`: the text area that shows and edits the URL list. */
  class SettingTab {
    const plugin: Plugin
    var text: string

    constructor (plugin: Plugin)
      ensures this.plugin == plugin && text == []
    {
      this.plugin := plugin;
      text := [];
    }

    /** `display`: the text area shows the stored list, one URL per line. */
    method Display()
      modifies this
      ensures text == Join(plugin.settings.videoUrls, '\n')
    {
      text := Join(plugin.settings.videoUrls, '\n');
    }

    /** The text area's `onChange`: its value, normalised, replaces the stored list. */
    method OnChange(value: string)
      modifies this, plugin
      ensures text == value
      ensures plugin.settings == old(plugin.settings).(videoUrls := Normalize(value))
      ensures Normalized(plugin.settings.videoUrls)
    {
      text := value;
      plugin.settings := plugin.settings.(videoUrls := Normalize(value));
    }
  }

  /**
   * Opening the settings tab and leaving the text as shown re-stores the list
   * unchanged whenever it was stored by an edit (or is otherwise normalised).
   */
  method RedisplayAndResave(tab: SettingTab)
    requires Normalized(tab.plugin.settings.videoUrls)
    modifies tab, tab.plugin
    ensures tab.plugin.settings == old(tab.plugin.settings)
  {
    tab.Display();
    NormalizeJoin(tab.plugin.settings.videoUrls);
    tab.OnChange(tab.text);
  }
}
