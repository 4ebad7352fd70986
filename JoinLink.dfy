/** `getJoinUrl` of the host page: the link players open to join a game.
    The configured application URL and the browser's origin are parameters. */
module JoinLink {

  import opened Optional
  import opened QuizTypes

  const JoinPath := "/join?pin="

  predicate EndsWithSlash(s: string) {
    |s| > 0 && s[|s| - 1] == '/'
  }

  /** `appConfig.url || (typeof window !== 'undefined' ? window.location.origin : '')`;
      `origin` is `None` where there is no window. */
  function BaseUrl(configUrl: string, origin: Option<string>): (r: string)
    ensures configUrl != "" ==> r == configUrl
    ensures configUrl == "" && origin.Some? ==> r == origin.value
    ensures configUrl == "" && origin.None? ==> r == ""
  {
    if configUrl != "" then configUrl
    else match origin
      case None => ""
      case Some(o) => o
  }

  /** The base without one trailing slash, if it has one. */
  function NormalizedBase(base: string): (r: string)
    ensures EndsWithSlash(base) ==> r + "/" == base
    ensures !EndsWithSlash(base) ==> r == base
  {
    if EndsWithSlash(base) then base[..|base| - 1] else base
  }

  /** `getJoinUrl`: empty without a game; otherwise the join path with the
      game's PIN, relative when there is no base and appended to the base
      (one trailing slash removed) when there is. */
  function JoinUrl(game: Option<Game>, base: string): (r: string)
    ensures game.None? ==> r == ""
    ensures game.Some? && base == "" ==> r == JoinPath + game.value.pin
    ensures game.Some? ==>
              var tail := JoinPath + game.value.pin;
              |tail| <= |r| && r[|r| - |tail|..] == tail && r[..|r| - |tail|] == NormalizedBase(base)
  {
    match game
    case None => ""
    case Some(g) =>
      if base == "" then JoinPath + g.pin
      else NormalizedBase(base) + JoinPath + g.pin
  }

  /** The link from the configured URL and the origin, as the page builds it:
      the configured URL wins, then the origin, and with neither the link is
      relative. */
  function GetJoinUrl(game: Option<Game>, configUrl: string, origin: Option<string>): (r: string)
    ensures game.None? <==> r == ""
    ensures game.Some? && configUrl != "" ==> r == NormalizedBase(configUrl) + JoinPath + game.value.pin
    ensures game.Some? && configUrl == "" && origin.Some? && origin.value != "" ==>
              r == NormalizedBase(origin.value) + JoinPath + game.value.pin
    ensures game.Some? && configUrl == "" && (origin.None? || origin.value == "") ==>
              r == JoinPath + game.value.pin
  {
    JoinUrl(game, BaseUrl(configUrl, origin))
  }

  /** The PIN is what follows the join path, so the link names its game. */
  function PinOf(url: string, base: string): string
    requires |NormalizedBase(base) + JoinPath| <= |url|
  {
    url[|NormalizedBase(base) + JoinPath|..]
  }

  /** Reading the PIN back from a link gives the game's PIN. */
  lemma PinOfJoinUrl(g: Game, base: string)
    ensures |NormalizedBase(base) + JoinPath| <= |JoinUrl(Some(g), base)|
    ensures PinOf(JoinUrl(Some(g), base), base) == g.pin
  {
    var pre := NormalizedBase(base) + JoinPath;
    if base == "" {
      assert pre == JoinPath;
    }
    assert JoinUrl(Some(g), base) == pre + g.pin;
    assert (pre + g.pin)[|pre|..] == g.pin;
  }

  /** For one base, different PINs never share a link. */
  lemma JoinUrlInjective(g1: Game, g2: Game, base: string)
    requires JoinUrl(Some(g1), base) == JoinUrl(Some(g2), base)
    ensures g1.pin == g2.pin
  {
    PinOfJoinUrl(g1, base);
    PinOfJoinUrl(g2, base);
  }

  /** Normalizing keeps the base from doubling the slash: unless the base
      itself ends in two slashes, the join path is not preceded by one. */
  lemma NoDoubledSlash(g: Game, base: string)
    requires !(|base| >= 2 && base[|base| - 2..] == "//")
    ensures var r := JoinUrl(Some(g), base);
            var p := |r| - |JoinPath + g.pin|;
            p == 0 || r[p - 1] != '/'
  {
    var r := JoinUrl(Some(g), base);
    var n := NormalizedBase(base);
    assert r == n + JoinPath + g.pin;
    if |n| > 0 && EndsWithSlash(base) {
      assert base[|base| - 2..] == [n[|n| - 1], '/'];
    }
  }
}
