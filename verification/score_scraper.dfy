/** The score scraper: the match-URL check made when it is constructed, and the
    transformation of the three page elements it reads into a `MatchScore`. */
module Scraper {
  import opened Common
  import opened Models
  import opened Text

  /** The fixed host-and-path part of an accepted match URL. */
  const Host := ".flashscore.com/match/"

  /** The fixed fragment an accepted match URL ends with. */
  const Tail := "/#/match-summary/match-summary"

  /** One way of reading `url` as `prefix + host + id + tail + end`: the shape
      of a match of `.*` host `[^/]+` tail `$` applied with `re.match`, where
      `.*` never crosses a line feed, `[^/]+` may, and `$` also matches just
      before one final line feed. */
  ghost predicate Reading(url: string, host: string, tail: string, prefix: string, id: string, end: string) {
    url == prefix + host + id + tail + end
    && '\n' !in prefix
    && |id| > 0 && '/' !in id
    && (end == "" || end == "\n")
  }

  /** One way of reading `url` against the pattern
      `.*\.flashscore\.com/match/[^/]+/#/match-summary/match-summary$`. */
  ghost predicate UrlParts(url: string, prefix: string, id: string, end: string) {
    Reading(url, Host, Tail, prefix, id, end)
  }

  /** The match URLs the scraper accepts. */
  ghost predicate MatchesUrlPattern(url: string) {
    exists prefix, id, end :: UrlParts(url, prefix, id, end)
  }

  /** Position of the last `c` in `s`, or -1. */
  function LastIndexOf(s: string, c: char): (k: int)
    ensures -1 <= k < |s|
    ensures k >= 0 ==> s[k] == c
    ensures forall j :: k < j < |s| ==> s[j] != c
  {
    if |s| == 0 then -1
    else if s[|s| - 1] == c then |s| - 1
    else LastIndexOf(s[..|s| - 1], c)
  }

  /** The text in front of the optional final line feed. */
  function Body(url: string): (body: string) {
    if |url| > 0 && url[|url| - 1] == '\n' then url[..|url| - 1] else url
  }

  /** Decides a `host [^/]+ tail` pattern without backtracking: strip one final
      line feed, require the tail, take the ID after the last slash, and require
      the host in front of it with no line feed before the host. */
  predicate Accepts(url: string, host: string, tail: string) {
    var body := Body(url);
    |tail| <= |body| && body[|body| - |tail|..] == tail &&
    (var rest := body[..|body| - |tail|];
     var k := LastIndexOf(rest, '/');
     |host| <= k + 1 < |rest| && rest[k + 1 - |host|..k + 1] == host
     && '\n' !in rest[..k + 1 - |host|])
  }

  /** The check `__init__` makes on the match URL. */
  predicate IsValidMatchUrl(url: string) {
    Accepts(url, Host, Tail)
  }

  /** The decision procedure accepts exactly the URLs the pattern matches. */
  lemma IsValidMatchUrlCorrect(url: string)
    ensures IsValidMatchUrl(url) <==> MatchesUrlPattern(url)
  {
    if IsValidMatchUrl(url) {
      ValidUrlMatches(url);
    }
    if MatchesUrlPattern(url) {
      MatchingUrlIsValid(url);
    }
  }

  /** Every URL the decision procedure accepts has a reading against the pattern. */
  lemma ValidUrlMatches(url: string)
    requires IsValidMatchUrl(url)
    ensures MatchesUrlPattern(url)
  {
    var prefix, id, end := AcceptedHasReading(url, Host, Tail);
    assert UrlParts(url, prefix, id, end);
  }

  /** Every URL passing `Accepts` splits around the last slash before the tail. */
  lemma AcceptedHasReading(url: string, host: string, tail: string) returns (prefix: string, id: string, end: string)
    requires Accepts(url, host, tail)
    ensures Reading(url, host, tail, prefix, id, end)
  {
    var body := Body(url);
    var rest := body[..|body| - |tail|];
    var k := LastIndexOf(rest, '/');
    prefix, id := rest[..k + 1 - |host|], rest[k + 1..];
    end := if |url| > 0 && url[|url| - 1] == '\n' then "\n" else "";
    assert rest == prefix + host + id;
    assert body == rest + tail;
    assert url == body + end;
    assert '/' !in id by {
      forall i | 0 <= i < |id| ensures id[i] != '/' {
        assert id[i] == rest[k + 1 + i];
      }
    }
  }

  /** Every reading of a URL against the pattern passes the decision procedure. */
  lemma MatchingUrlIsValid(url: string)
    requires MatchesUrlPattern(url)
    ensures IsValidMatchUrl(url)
  {
    var prefix, id, end :| UrlParts(url, prefix, id, end);
    assert Host[|Host| - 1] == '/' && Tail[|Tail| - 1] != '\n';
    ReadingIsAccepted(url, Host, Tail, prefix, id, end);
  }

  /** A reading is found again by `Accepts` when the host ends with the slash
      the ID follows and the tail does not end with a line feed. */
  lemma ReadingIsAccepted(url: string, host: string, tail: string, prefix: string, id: string, end: string)
    requires |host| > 0 && host[|host| - 1] == '/'
    requires |tail| > 0 && tail[|tail| - 1] != '\n'
    requires Reading(url, host, tail, prefix, id, end)
    ensures Accepts(url, host, tail)
  {
    var body := prefix + host + id + tail;
    assert url == body + end;
    if end == "" {
      assert url[|url| - 1] == tail[|tail| - 1];
    } else {
      assert url[..|url| - 1] == body;
    }
    assert Body(url) == body;
    var rest := prefix + host + id;
    assert body[..|body| - |tail|] == rest && body[|body| - |tail|..] == tail;
    var slash := |prefix| + |host| - 1;
    assert rest[slash] == '/';
    assert forall j :: slash < j < |rest| ==> rest[j] == id[j - slash - 1];
    var k := LastIndexOf(rest, '/');
    assert k == slash;
    assert rest[k + 1 - |host|..k + 1] == host;
    assert rest[..k + 1 - |host|] == prefix;
  }

  /** What `get_current_score` reads from the fetched page: the text of the
      home name, the away name and the score elements, `None` when the element
      (or the element around it) is absent from the markup. */
  datatype Page = Page(homeName: Option<string>, awayName: Option<string>, scoreText: Option<string>)

  /** The post-fetch part of `get_current_score`. A missing element becomes
      MissingElement (the RuntimeError); a score text that is not two `-`
      separated halves, or whose halves `int()` rejects, surfaces as the
      ValueError raised by the unpacking or by `int()`. */
  function ExtractScore(page: Page): (r: Result<MatchScore>)
    ensures r == Err(MissingElement) <==>
              page.homeName.None? || page.awayName.None? || page.scoreText.None?
    ensures r.Err? ==> r.error in {MissingElement, UnpackMismatch, InvalidLiteral}
    ensures r.Ok? ==> r.value.homeTeam.name == page.homeName.value
                      && r.value.awayTeam.name == page.awayName.value
    ensures r.Ok? ==> r.value.homeTeam.points >= 0 && r.value.awayTeam.points >= 0
    ensures r.Ok? ==> Count(page.scoreText.value, '-') == 1
    ensures r.Ok? ==> Some(r.value.homeTeam.points) == ParseInt(Split(page.scoreText.value, '-')[0])
                      && Some(r.value.awayTeam.points) == ParseInt(Split(page.scoreText.value, '-')[1])
    ensures r == Err(UnpackMismatch) <==>
              page.homeName.Some? && page.awayName.Some? && page.scoreText.Some?
              && Count(page.scoreText.value, '-') != 1
    ensures r == Err(InvalidLiteral) <==>
              page.homeName.Some? && page.awayName.Some? && page.scoreText.Some?
              && Count(page.scoreText.value, '-') == 1
              && (ParseInt(Split(page.scoreText.value, '-')[0]).None?
                  || ParseInt(Split(page.scoreText.value, '-')[1]).None?)
  {
    if page.homeName.None? || page.awayName.None? || page.scoreText.None? then
      Err(MissingElement)
    else
      var halves := Split(page.scoreText.value, '-');
      if |halves| != 2 then Err(UnpackMismatch)
      else
        var homePoints, awayPoints := ParseInt(halves[0]), ParseInt(halves[1]);
        if homePoints.None? || awayPoints.None? then Err(InvalidLiteral)
        else Ok(MatchScore(Team(page.homeName.value, homePoints.value),
                           Team(page.awayName.value, awayPoints.value)))
  }

  /** A score shown as `str(h) + "-" + str(a)` is read back as h and a, with the
      two names passed through in home-then-away order. */
  lemma ExtractScoreRoundTrip(home: string, away: string, h: nat, a: nat)
    ensures ExtractScore(Page(Some(home), Some(away), Some(NatToString(h) + "-" + NatToString(a))))
            == Ok(MatchScore(Team(home, h), Team(away, a)))
  {
    var hText, aText := NatToString(h), NatToString(a);
    assert '-' !in hText by { assert forall i :: 0 <= i < |hText| ==> IsDigit(hText[i]); }
    assert '-' !in aText by { assert forall i :: 0 <= i < |aText| ==> IsDigit(aText[i]); }
    SplitPair(hText, aText, '-');
    assert hText + "-" + aText == hText + ['-'] + aText;
    ParseIntToString(h);
    ParseIntToString(a);
  }

  /** The scraper after a successful construction. The browser it opens is not
      part of this model: pages arrive as `Page` values. */
  class ScoreScraper {
    const matchUrl: string
    var prevFavScore: Option<MatchScore>

    /** The field set-up that follows the URL check in `__init__`. */
    constructor (matchUrl: string)
      requires MatchesUrlPattern(matchUrl)
      ensures this.matchUrl == matchUrl && prevFavScore == None
    {
      this.matchUrl := matchUrl;
      prevFavScore := None;
    }
  }

  /** `ScoreScraper(match_url)`: the URL check runs before anything is stored;
      a URL outside the pattern raises the ValueError and creates no scraper. */
  method NewScoreScraper(matchUrl: string) returns (r: Result<ScoreScraper>)
    ensures r.Err? <==> !MatchesUrlPattern(matchUrl)
    ensures r.Err? ==> r.error == InvalidMatchUrl
    ensures r.Ok? ==> fresh(r.value) && r.value.matchUrl == matchUrl && r.value.prevFavScore == None
  {
    IsValidMatchUrlCorrect(matchUrl);
    if !IsValidMatchUrl(matchUrl) {
      return Err(InvalidMatchUrl);
    }
    var scraper := new ScoreScraper(matchUrl);
    return Ok(scraper);
  }
}
