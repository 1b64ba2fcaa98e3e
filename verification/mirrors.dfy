/** `findRepository`: picks a mirror from the plain-text list served at
    https://zauguin.github.io/texlive-mirrors/us. The list is the
    white-space-separated words of the response body; each pick is
    `mirrors[Math.floor(Math.random() * mirrors.length)]`, made twice: the
    first pick is only logged, the second is returned. The fetch outcome and
    both random numbers are supplied by the caller. */
module Mirrors {
  import opened Wrappers
  import opened Tokenizer
  import opened Text

  /** A value of `Math.random()`. */
  type Fraction = r: real | 0.0 <= r < 1.0

  /** What the GET request did: it threw, or it answered with a status and a body. */
  datatype Fetch = Threw | Response(status: int, body: string)

  /** The mirror list text, only from a response with status 200. */
  function MirrorListText(fetch: Fetch): (r: Option<string>)
    ensures r.Some? <==> fetch.Response? && fetch.status == 200
    ensures r.Some? ==> r.value == fetch.body
  {
    if fetch.Response? && fetch.status == 200 then Some(fetch.body) else None
  }

  lemma ScaleBelow(r: real, n: real)
    requires 0.0 <= r < 1.0 && 0.0 < n
    ensures 0.0 <= r * n < n
  {
  }

  /** `Math.floor(random * n)`: an index below `n` whenever `n > 0`. */
  function Draw(random: Fraction, n: nat): (i: nat)
    ensures n > 0 ==> i < n
    ensures n == 0 ==> i == 0
  {
    if n == 0 then 0
    else
      ScaleBelow(random, n as real);
      (random * (n as real)).Floor
  }

  /** `list[i]`, `undefined` when out of range. */
  function At(list: seq<string>, i: nat): (r: Option<string>)
    ensures r.Some? <==> i < |list|
    ensures r.Some? ==> r.value == list[i]
  {
    if i < |list| then Some(list[i]) else None
  }

  /** What one run of `findRepository` does: when the list cannot be
      fetched it reports that and selects nothing; otherwise it draws the
      mirror it logs and, independently, the mirror it returns. */
  datatype Lookup =
    | Unavailable
    | Drawn(mirrors: seq<string>, logged: Option<string>, chosen: Option<string>)
  {
    /** The return value of `findRepository`. */
    function Repository(): Option<string> {
      if Drawn? then chosen else None
    }
  }

  function FindRepository(fetch: Fetch, logDraw: Fraction, pickDraw: Fraction): (r: Lookup)
    ensures r.Unavailable? <==> MirrorListText(fetch).None?
    ensures r.Drawn? ==> r.mirrors == Tokens(fetch.body)
    ensures r.Repository().Some? ==> r.Repository().value in Tokens(fetch.body)
    ensures r.Drawn? ==> (r.chosen.None? <==> |r.mirrors| == 0)
    ensures r.Drawn? ==> (r.logged.None? <==> |r.mirrors| == 0)
  {
    match MirrorListText(fetch)
    case None => Unavailable
    case Some(text) =>
      var mirrors := Tokens(text);
      Drawn(mirrors, At(mirrors, Draw(logDraw, |mirrors|)), At(mirrors, Draw(pickDraw, |mirrors|)))
  }

  /** For each index below `n` there is a random number that draws it. */
  function DrawHitting(i: nat, n: nat): (r: Fraction)
    requires i < n
    ensures Draw(r, n) == i
  {
    var x := (i as real) / (n as real);
    assert x * (n as real) == i as real;
    x
  }

  /** Every listed mirror can be returned: some random number picks it. */
  lemma EveryMirrorReachable(body: string, i: nat)
    requires i < |Tokens(body)|
    ensures exists r: Fraction :: FindRepository(Response(200, body), 0.0, r).Repository() == Some(Tokens(body)[i])
  {
    var r := DrawHitting(i, |Tokens(body)|);
    assert FindRepository(Response(200, body), 0.0, r).Repository() == Some(Tokens(body)[i]);
  }

  /** The returned mirror does not depend on the logged draw. */
  lemma RepositoryIgnoresLoggedDraw(fetch: Fetch, l1: Fraction, l2: Fraction, pick: Fraction)
    ensures FindRepository(fetch, l1, pick).Repository() == FindRepository(fetch, l2, pick).Repository()
  {
  }

  /** The logged mirror need not be the returned one. */
  lemma LoggedMayDifferFromChosen()
    ensures FindRepository(Response(200, "m1 m2"), 0.0, 0.5).logged == Some("m1")
    ensures FindRepository(Response(200, "m1 m2"), 0.0, 0.5).chosen == Some("m2")
  {
    assert "m1 m2" == "m1" + " " + "m2";
    TokensOfJoin(["m1", "m2"]);
    assert Join(["m1", "m2"], " ") == "m1 m2";
    assert Draw(0.5, 2) == 1;
  }
}
