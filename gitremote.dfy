// samplr/git-go/remote.go: remotes and their text form. The remote iterator
// is GitIter.SliceIter<Remote>.
module GitRemote {
  import opened Wrappers
  import opened Strs

  /** A remote's name and URLs; fetch uses the first URL. */
  datatype RemoteConfig = RemoteConfig(name: string, urls: seq<string>)

  /** A remote refers to its configuration, which may be nil. */
  datatype Remote = Remote(c: Option<RemoteConfig>)

  /** Remote.Config on a possibly nil remote: nil for nil, the stored config otherwise. */
  function Config(r: Option<Remote>): (c: Option<RemoteConfig>)
    ensures r.None? ==> c.None?
    ensures r.Some? ==> c == r.value.c
  {
    if r.None? then None else r.value.c
  }

  /** The URL shown by String: the first one, or "" when there is none. */
  function FirstURL(cfg: RemoteConfig): (u: string)
    ensures cfg.urls == [] ==> u == ""
    ensures cfg.urls != [] ==> u == cfg.urls[0]
  {
    if |cfg.urls| > 0 then cfg.urls[0] else ""
  }

  /** Remote.String: a fetch line and a push line, both naming the first URL. */
  function String(r: Remote): (s: string)
    requires r.c.Some?
  {
    var cfg := r.c.value;
    var url := FirstURL(cfg);
    cfg.name + "\t" + url + " (fetch)\n" + cfg.name + "\t" + url + " (push)"
  }

  /**
   * When the name and the URL hold no newline, String is exactly two lines,
   * "<name>TAB<url> (fetch)" and "<name>TAB<url> (push)".
   */
  lemma StringLines(r: Remote)
    requires r.c.Some?
    requires '\n' !in r.c.value.name && '\n' !in FirstURL(r.c.value)
    ensures var cfg := r.c.value;
      Split(String(r), '\n') == [cfg.name + "\t" + FirstURL(cfg) + " (fetch)",
                                 cfg.name + "\t" + FirstURL(cfg) + " (push)"]
  {
    var cfg := r.c.value;
    var a := cfg.name + "\t" + FirstURL(cfg) + " (fetch)";
    var b := cfg.name + "\t" + FirstURL(cfg) + " (push)";
    assert String(r) == a + "\n" + b;
    SplitNoSep(b, '\n');
    SplitAtSep(a, '\n', b);
  }
}
