/**
 * The `ArticleSummary` widget: the constructor's gate and option defaults,
 * the initial theme, `render`, `updateTheme` and `updateContent`. The page
 * (`window.location`, the root element's attributes) and the global
 * `articleConfig` are parameters; the container is present or absent.
 */
module Summary {
  import opened Wrappers
  import UrlGate
  import CleanContent
  import DarkMode
  import Typewriter

  /** The fields of the global `articleConfig` that the widget reads. */
  datatype Config = Config(
    enableSummary: bool,
    blacklist: seq<string>,
    urlPatterns: seq<string>,
    darkModeSelector: Option<string>)

  /** `location.href`, `location.pathname` and the root element's attributes. */
  datatype Page = Page(href: string, pathname: string, rootAttributes: map<string, string>)

  /** The constructor's `options` argument; a field that is not given is None. */
  datatype Options = Options(
    icon: Option<string>,
    title: Option<string>,
    content: string,
    source: Option<string>,
    theme: Option<string>)

  /** `this.options` once the constructor has filled it in. */
  datatype Settings = Settings(icon: string, title: string, content: string, source: string, theme: string)

  /** JavaScript `v || fallback` for a string that may be missing: missing and "" fall back. */
  function OrElse(v: Option<string>, fallback: string): (r: string)
    ensures r == fallback || v == Some(r)
    ensures v.Some? && v.value != "" ==> r == v.value
    ensures v.None? || v.value == "" ==> r == fallback
    ensures r != "" <==> fallback != "" || (v.Some? && v.value != "")
  {
    if v.Some? && v.value != "" then v.value else fallback
  }

  const ClassPrefix: string := "post-SummaraidGPT gpttheme_"

  /** The class attribute of a summary block shown in `theme`. */
  function ThemeClass(theme: string): (c: string)
    ensures |c| == |ClassPrefix| + |theme| && c[..|ClassPrefix|] == ClassPrefix && c[|ClassPrefix|..] == theme
  {
    ClassPrefix + theme
  }

  /** The class attribute tells the theme apart: distinct themes give distinct classes. */
  lemma ThemeClassDeterminesTheme(a: string, b: string)
    ensures ThemeClass(a) == ThemeClass(b) <==> a == b
  {
    if ThemeClass(a) == ThemeClass(b) {
      assert ThemeClass(a)[|ClassPrefix|..] == a;
      assert ThemeClass(b)[|ClassPrefix|..] == b;
    }
  }

  /** The initial theme: dark when detection says so, else the configured theme or `default`. */
  function InitialTheme(config: Config, page: Page, opts: Options): (t: string)
    ensures t != ""
    ensures t == "dark" || t == OrElse(opts.theme, "default")
    ensures DarkMode.DetectDarkMode(config.darkModeSelector, page.rootAttributes) ==> t == "dark"
    ensures !DarkMode.DetectDarkMode(config.darkModeSelector, page.rootAttributes) ==> t == OrElse(opts.theme, "default")
    ensures DarkMode.ObservedAttribute(config.darkModeSelector).None? ==> t == OrElse(opts.theme, "default")
  {
    if DarkMode.DetectDarkMode(config.darkModeSelector, page.rootAttributes) then "dark"
    else OrElse(opts.theme, "default")
  }

  class ArticleSummary {
    /** None when the constructor returned early, leaving `this.options` undefined. */
    var options: Option<Settings>
    var hasContainer: bool
    /** The attribute the dark-mode observer watches, if one was set up. */
    var observed: Option<string>
    /** The class attribute of each summary block in the container, newest first. */
    var blocks: seq<string>
    /** The session started by the latest render. */
    var session: Typewriter.Session?

    ghost predicate Valid()
      reads this
    {
      && (options.None? ==> !hasContainer && observed == None && blocks == [] && session == null)
      && (!hasContainer ==> blocks == [] && session == null)
      // the newest summary block carries the current theme's class
      && (options.Some? && blocks != [] ==> blocks[0] == ThemeClass(options.value.theme))
    }

    /** `new ArticleSummary(container, options)`. */
    constructor (container: bool, opts: Options, config: Config, page: Page)
      requires config.enableSummary && page.href !in config.blacklist ==> UrlGate.AllPlain(config.urlPatterns)
      ensures Valid()
      ensures options.Some? == UrlGate.Gate(config.enableSummary, config.blacklist, config.urlPatterns, page.href, page.pathname)
      ensures options.Some? ==>
        && options.value == Settings(
             OrElse(opts.icon, "./icon.svg"),
             OrElse(opts.title, "\U{6587}\U{7AE0}\U{6458}\U{8981}"),
             CleanContent.Clean(opts.content),
             OrElse(opts.source, "SummaraidGPT"),
             InitialTheme(config, page, opts))
        && hasContainer == container
        && observed == DarkMode.ObservedAttribute(config.darkModeSelector)
      ensures options.Some? && container ==>
        && blocks == [ThemeClass(options.value.theme)]
        && session != null && fresh(session) && session.Valid()
        && session.text == options.value.content && session.frames == [Typewriter.Cursor]
        && session.Remaining() == |session.text| + 2 && session.cursorAttached && session.styleAttached
      ensures !(options.Some? && container) ==> blocks == [] && session == null
    {
      blocks := [];
      session := null;
      if UrlGate.Gate(config.enableSummary, config.blacklist, config.urlPatterns, page.href, page.pathname) {
        var settings := Settings(
          OrElse(opts.icon, "./icon.svg"),
          OrElse(opts.title, "\U{6587}\U{7AE0}\U{6458}\U{8981}"),
          CleanContent.Clean(opts.content),
          OrElse(opts.source, "SummaraidGPT"),
          OrElse(opts.theme, "default"));
        options := Some(settings.(theme := InitialTheme(config, page, opts)));
        hasContainer := container;
        observed := DarkMode.ObservedAttribute(config.darkModeSelector);
      } else {
        options := None;
        hasContainer := false;
        observed := None;
      }
      new;
      if options.Some? {
        Render();
      }
    }

    /** `render`: without a container nothing happens. */
    method Render()
      requires Valid()
      modifies this
      ensures Valid()
      ensures options == old(options) && hasContainer == old(hasContainer) && observed == old(observed)
      ensures !hasContainer ==> blocks == old(blocks) && session == old(session)
      ensures hasContainer ==>
        && blocks == [ThemeClass(options.value.theme)] + old(blocks)
        && session != null && fresh(session) && session.Valid()
        && session.text == options.value.content && session.frames == [Typewriter.Cursor]
        && session.Remaining() == |session.text| + 2 && session.cursorAttached && session.styleAttached
    {
      if !hasContainer {
        return;
      }
      blocks := [ThemeClass(options.value.theme)] + blocks;
      session := new Typewriter.Session(options.value.content);
    }

    /**
     * `updateTheme(theme)`: nothing changes when the theme is already current;
     * otherwise the theme is set and the newest summary block gets its class.
     */
    method UpdateTheme(theme: string)
      requires Valid() && options.Some?
      modifies this
      ensures Valid()
      ensures hasContainer == old(hasContainer) && observed == old(observed) && session == old(session)
      ensures old(options.value.theme) == theme ==> options == old(options) && blocks == old(blocks)
      ensures old(options.value.theme) != theme ==>
        && options == Some(old(options.value).(theme := theme))
        && blocks == (if old(blocks) == [] then [] else [ThemeClass(theme)] + old(blocks)[1..])
    {
      if options.value.theme != theme {
        options := Some(options.value.(theme := theme));
        if blocks != [] {
          blocks := [ThemeClass(theme)] + blocks[1..];
        }
      }
    }

    /** `updateContent(content)`: the content is cleaned and rendered again. */
    method UpdateContent(content: string)
      requires Valid() && options.Some?
      modifies this
      ensures Valid()
      ensures options == Some(old(options.value).(content := CleanContent.Clean(content)))
      ensures hasContainer == old(hasContainer) && observed == old(observed)
      ensures !hasContainer ==> blocks == old(blocks) && session == old(session)
      ensures hasContainer ==>
        && blocks == [ThemeClass(options.value.theme)] + old(blocks)
        && session != null && fresh(session) && session.Valid()
        && session.text == CleanContent.Clean(content) && session.frames == [Typewriter.Cursor]
        && session.Remaining() == |session.text| + 2 && session.cursorAttached && session.styleAttached
    {
      options := Some(options.value.(content := CleanContent.Clean(content)));
      Render();
    }

    /**
     * The dark-mode observer's callback for a mutation of attribute
     * `attributeName`: when it is the watched one, detection runs again on the
     * root element's current attributes and the theme becomes `dark` or `default`.
     * The selector is the configured one the observer was set up from.
     */
    method OnAttributeMutation(attributeName: string, selector: Option<string>, root: map<string, string>)
      requires Valid() && observed.Some?
      requires DarkMode.ObservedAttribute(selector) == observed
      modifies this
      ensures Valid()
      ensures hasContainer == old(hasContainer) && observed == old(observed) && session == old(session)
      ensures attributeName != old(observed.value) ==> options == old(options) && blocks == old(blocks)
      ensures attributeName == old(observed.value) ==>
        var theme := if DarkMode.DetectDarkMode(selector, root) then "dark" else "default";
        && options == Some(old(options.value).(theme := theme))
        && blocks == (if old(options.value.theme) == theme || old(blocks) == [] then old(blocks)
                      else [ThemeClass(theme)] + old(blocks)[1..])
    {
      if attributeName == observed.value {
        UpdateTheme(if DarkMode.DetectDarkMode(selector, root) then "dark" else "default");
      }
    }
  }
}
