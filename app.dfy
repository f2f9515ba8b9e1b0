/** src/app.ts: the application's own middleware.  The CORS origin check
    lets through requests without an origin and origins that are exactly
    `http://localhost` with an optional numeric port; any other route is
    answered 404. */
module App {
  import opened Common
  import opened Text
  import opened Regex
  import opened Http

  const Localhost := "http://localhost"
  const CorsRejected := "No permitido por CORS"
  const NotFoundMessage := "Endpoint no encontrado"

  /** `http:\/\/localhost(:\d+)?` */
  function LocalhostPattern(): Re {
    Cat(Word(Localhost), Optional(Cat(Word(":"), Plus(Class(Digits)))))
  }

  /** The origins `/^http:\/\/localhost(:\d+)?$/` accepts, spelled out. */
  predicate IsLocalOrigin(o: string) {
    o == Localhost
    || (StartsWith(o, Localhost + ":") && |o| > |Localhost| + 1 && AllDigits(o[|Localhost| + 1..]))
  }

  /** The `origin` callback: an absent or empty origin passes, as does a
      local one; any other is refused with an error. */
  function OriginVerdict(origin: Option<string>): (v: Verdict)
    ensures v.Reject? ==> v.message == CorsRejected
  {
    match origin
    case None => Accept
    case Some(o) => if o == [] || IsLocalOrigin(o) then Accept else Reject(CorsRejected)
  }

  /** The catch-all after the routes. */
  function NotFoundReply(): Write {
    Write(404, JObj([("error", JStr(NotFoundMessage))]))
  }

  method NotFound(res: Response)
    modifies res
    ensures res.writes == old(res.writes) + [NotFoundReply()]
  {
    res.Send(404, JObj([("error", JStr(NotFoundMessage))]));
  }

  // ---- lemmas ----

  /** `:\d+` matches exactly ':' followed by at least one digit. */
  lemma PortMatches(t: string)
    ensures Matches(Cat(Word(":"), Plus(Class(Digits))), t) <==>
      |t| > 1 && t[0] == ':' && AllDigits(t[1..])
  {
    CatWordMatches(":", Plus(Class(Digits)), t);
    if |t| > 0 {
      ClassPlusMatches(Digits, t[1..]);
      assert StartsWith(t, ":") <==> t[0] == ':';
    }
  }

  /** `w(:\d+)?` for any host prefix w. */
  lemma {:induction false} HostWithPortMatches(w: string, o: string)
    ensures Matches(Cat(Word(w), Optional(Cat(Word(":"), Plus(Class(Digits))))), o) <==>
      o == w || (StartsWith(o, w + ":") && |o| > |w| + 1 && AllDigits(o[|w| + 1..]))
  {
    var port := Cat(Word(":"), Plus(Class(Digits)));
    CatWordMatches(w, Optional(port), o);
    if StartsWith(o, w) {
      var t := o[|w|..];
      PortMatches(t);
      assert o == w <==> t == [];
      if |t| > 0 {
        assert StartsWith(o, w + ":") <==> t[0] == ':';
        assert t[1..] == o[|w| + 1..];
      }
    }
  }

  /** The origin test is the anchored regular expression. */
  lemma LocalOriginMeaning(o: string)
    ensures Matches(LocalhostPattern(), o) <==> IsLocalOrigin(o)
  {
    HostWithPortMatches(Localhost, o);
  }

  lemma AcceptsLocalPort()
    ensures OriginVerdict(Some("http://localhost:3000")) == Accept
  {
    var o := "http://localhost:3000";
    assert o[..|Localhost + ":"|] == Localhost + ":";
    assert o[|Localhost| + 1..] == "3000";
  }

  /** A host name that merely starts with "localhost" is refused. */
  lemma RejectsLookalikeHost()
    ensures OriginVerdict(Some("http://localhost.evil.com")) == Reject(CorsRejected)
  {
    var o := "http://localhost.evil.com";
    assert o[16] == '.';
    assert o[..17] != Localhost + ":" by { assert o[..17][16] == '.'; }
  }
}
