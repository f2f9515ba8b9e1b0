/** src/config/cors_config.ts: a CORS configuration whose origin test is
    `/^http:\/\/localhost(:\d+)?/` without the closing `$`, so it accepts
    every origin that starts with `http://localhost`.  It also names the
    methods and request headers a preflight answer allows. */
module CorsConfig {
  import opened Common
  import opened Text
  import opened Regex
  import App

  const AllowedMethods: seq<string> := ["GET", "POST", "PUT", "DELETE"]
  const AllowedHeaders: seq<string> := ["Content-Type", "Authorization"]

  /** The `origin` callback: an absent or empty origin passes, as does one
      that starts with `http://localhost`. */
  function OriginVerdict(origin: Option<string>): (v: Verdict)
    ensures v.Reject? ==> v.message == App.CorsRejected
  {
    match origin
    case None => Accept
    case Some(o) => if o == [] || StartsWith(o, App.Localhost) then Accept else Reject(App.CorsRejected)
  }

  /** The preflight headers the cors package derives from the options: each
      list joined with ','. */
  function PreflightHeaders(): seq<(string, string)> {
    [("Access-Control-Allow-Methods", Join(AllowedMethods, ',')),
     ("Access-Control-Allow-Headers", Join(AllowedHeaders, ','))]
  }

  // ---- lemmas ----

  /** `^w(:\d+)?` without `$` has a match exactly when s starts with w. */
  lemma {:induction false} PrefixMatch(w: string, r: Re, s: string)
    ensures MatchesPrefix(Cat(Word(w), Optional(r)), s) <==> StartsWith(s, w)
  {
    if MatchesPrefix(Cat(Word(w), Optional(r)), s) {
      var j :| 0 <= j <= |s| && Matches(Cat(Word(w), Optional(r)), s[..j]);
      CatWordMatches(w, Optional(r), s[..j]);
      assert s[..j][..|w|] == s[..|w|];
    }
    if StartsWith(s, w) {
      CatWordMatches(w, Optional(r), s[..|w|]);
      assert s[..|w|][|w|..] == [];
      assert Matches(Optional(r), []);
    }
  }

  /** Without `$` the pattern only has to match a prefix, which happens
      exactly when the origin starts with `http://localhost`. */
  lemma OriginPatternMeaning(o: string)
    ensures MatchesPrefix(App.LocalhostPattern(), o) <==> StartsWith(o, App.Localhost)
  {
    PrefixMatch(App.Localhost, Cat(Word(":"), Plus(Class(Digits))), o);
  }

  /** Every origin the application's own check accepts is accepted here. */
  lemma LooserThanApp(origin: Option<string>)
    ensures App.OriginVerdict(origin) == Accept ==> OriginVerdict(origin) == Accept
  {
    if origin.Some? && App.IsLocalOrigin(origin.value) && origin.value != App.Localhost {
      var o := origin.value;
      assert o[..|App.Localhost|] == (App.Localhost + ":")[..|App.Localhost|];
    }
  }

  /** ... but not the other way round: a look-alike host passes here. */
  lemma AcceptsLookalikeHost()
    ensures OriginVerdict(Some("http://localhost.evil.com")) == Accept
    ensures App.OriginVerdict(Some("http://localhost.evil.com")).Reject?
  {
    App.RejectsLookalikeHost();
    assert "http://localhost.evil.com"[..16] == App.Localhost;
  }

  /** A client splitting the preflight headers on ',' gets the configured
      lists back. */
  lemma PreflightHeadersReadBack()
    ensures Split(PreflightHeaders()[0].1, ',') == AllowedMethods
    ensures Split(PreflightHeaders()[1].1, ',') == AllowedHeaders
  {
    SplitJoin(AllowedMethods, ',');
    SplitJoin(AllowedHeaders, ',');
  }
}
