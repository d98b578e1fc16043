/** `MovieRecommender.create_feature_string`: the text a movie contributes to the
    content-similarity comparison. */
module FeatureString {
  import opened PyLists
  import opened Catalog

  const MaxKeywords: int := 10
  const MaxCast: int := 5

  function GenreNames(gs: seq<Genre>): (r: seq<string>)
    ensures |r| == |gs|
    ensures forall i :: 0 <= i < |gs| ==> r[i] == gs[i].name
  {
    seq(|gs|, i requires 0 <= i < |gs| => gs[i].name)
  }

  /** The names of the crew members whose job is "Director", in crew order. */
  function Directors(crew: seq<CrewMember>): seq<string>
    decreases |crew|
  {
    if crew == [] then []
    else
      var c := crew[|crew| - 1];
      Directors(crew[..|crew| - 1]) + (if c.job == "Director" then [c.name] else [])
  }

  /** A name is listed exactly when some crew member of that name has the job
      "Director"; there is at most one name per crew member. */
  lemma {:induction false} DirectorsExactly(crew: seq<CrewMember>)
    ensures forall x :: x in Directors(crew) <==> exists c :: c in crew && c.job == "Director" && c.name == x
    ensures |Directors(crew)| <= |crew|
    decreases |crew|
  {
    if crew != [] {
      var init, c := crew[..|crew| - 1], crew[|crew| - 1];
      assert crew == init + [c];
      DirectorsExactly(init);
      forall x ensures x in Directors(crew) <==> exists d :: d in crew && d.job == "Director" && d.name == x {
        if x in Directors(init) {
          var d :| d in init && d.job == "Director" && d.name == x;
          assert d in crew;
        }
        if exists d :: d in crew && d.job == "Director" && d.name == x {
          var d :| d in crew && d.job == "Director" && d.name == x;
          if d != c { assert d in init; }
        }
      }
    }
  }

  /** The five parts of the feature list, each empty when its key is absent. */
  function GenrePart(m: Details): seq<string> {
    if m.genres.Some? then GenreNames(m.genres.value) else []
  }

  function KeywordPart(m: Details): seq<string> {
    if m.keywords.Some? && m.keywords.value.keywords.Some? then Take(m.keywords.value.keywords.value, MaxKeywords) else []
  }

  function DirectorPart(m: Details): seq<string> {
    if m.credits.Some? && m.credits.value.crew.Some? then Directors(m.credits.value.crew.value) else []
  }

  function CastPart(m: Details): seq<string> {
    if m.credits.Some? && m.credits.value.cast.Some? then Take(m.credits.value.cast.value, MaxCast) else []
  }

  function OverviewPart(m: Details): seq<string> {
    if m.overview.Some? then [m.overview.value] else []
  }

  /** The keyword part is the first (at most) ten keywords, the cast part the
      first (at most) five cast names, and the director part names directors only. */
  lemma PartBounds(m: Details)
    ensures |KeywordPart(m)| <= MaxKeywords
    ensures m.keywords.Some? && m.keywords.value.keywords.Some? ==> KeywordPart(m) <= m.keywords.value.keywords.value
    ensures |CastPart(m)| <= MaxCast
    ensures m.credits.Some? && m.credits.value.cast.Some? ==> CastPart(m) <= m.credits.value.cast.value
    ensures forall x :: x in DirectorPart(m) ==>
      m.credits.Some? && m.credits.value.crew.Some? &&
      exists c :: c in m.credits.value.crew.value && c.job == "Director" && c.name == x
  {
    if m.credits.Some? && m.credits.value.crew.Some? {
      DirectorsExactly(m.credits.value.crew.value);
    }
  }

  /** Python's `' '.join(ws)`. */
  function JoinSpaced(ws: seq<string>): string
    decreases |ws|
  {
    if |ws| == 0 then "" else if |ws| == 1 then ws[0] else ws[0] + " " + JoinSpaced(ws[1..])
  }

  /** Python's `s.split(' ')`: the pieces between single spaces, [""] for "". */
  function SplitSpaces(s: string): (r: seq<string>)
    ensures |r| >= 1
    decreases |s|
  {
    if s == [] then [""]
    else
      var rest := SplitSpaces(s[1..]);
      if s[0] == ' ' then [""] + rest else [[s[0]] + rest[0]] + rest[1..]
  }

  lemma {:induction false} SplitWordPrefix(w: string, t: string)
    requires ' ' !in w
    ensures SplitSpaces(w + t) == [w + SplitSpaces(t)[0]] + SplitSpaces(t)[1..]
    decreases |w|
  {
    if w != [] {
      SplitWordPrefix(w[1..], t);
      assert (w + t)[1..] == w[1..] + t;
      assert [w[0]] + (w[1..] + SplitSpaces(t)[0]) == w + SplitSpaces(t)[0];
    } else {
      var r := SplitSpaces(t);
      assert w + t == t;
      assert w + r[0] == r[0];
      assert r == [r[0]] + r[1..];
    }
  }

  /** Joining by single spaces loses nothing when no word holds a space:
      splitting the joined text at spaces gives the words back. */
  lemma {:induction false} SplitJoinSpaced(ws: seq<string>)
    requires |ws| >= 1
    requires forall i :: 0 <= i < |ws| ==> ' ' !in ws[i]
    ensures SplitSpaces(JoinSpaced(ws)) == ws
    decreases |ws|
  {
    if |ws| == 1 {
      SplitWordPrefix(ws[0], "");
      assert ws[0] + "" == ws[0];
    } else {
      var rest := JoinSpaced(ws[1..]);
      SplitJoinSpaced(ws[1..]);
      assert JoinSpaced(ws) == ws[0] + (" " + rest);
      SplitWordPrefix(ws[0], " " + rest);
      assert (" " + rest)[1..] == rest;
      assert SplitSpaces(" " + rest) == [""] + SplitSpaces(rest);
      assert ws[0] + "" == ws[0];
      assert ws == [ws[0]] + ws[1..];
    }
  }

  /** Joining two non-empty lists puts exactly one space between their joins. */
  lemma {:induction false} JoinSpacedAppend(a: seq<string>, b: seq<string>)
    requires |a| >= 1 && |b| >= 1
    ensures JoinSpaced(a + b) == JoinSpaced(a) + " " + JoinSpaced(b)
    decreases |a|
  {
    if |a| == 1 {
      assert (a + b)[1..] == b;
    } else {
      JoinSpacedAppend(a[1..], b);
      assert (a + b)[1..] == a[1..] + b;
    }
  }

  /** `create_feature_string`: genres, then at most ten keywords, then the
      directors, then at most five cast names, then the overview, joined by
      single spaces. */
  method CreateFeatureString(movie: Details) returns (s: string)
    ensures s == JoinSpaced(GenrePart(movie) + KeywordPart(movie) + DirectorPart(movie) + CastPart(movie) + OverviewPart(movie))
  {
    var features: seq<string> := [];
    if movie.genres.Some? {
      features := features + GenreNames(movie.genres.value);
    }
    assert features == GenrePart(movie);
    if movie.keywords.Some? && movie.keywords.value.keywords.Some? {
      features := features + Take(movie.keywords.value.keywords.value, MaxKeywords);
    }
    assert features == GenrePart(movie) + KeywordPart(movie);
    if movie.credits.Some? && movie.credits.value.crew.Some? {
      var crew := movie.credits.value.crew.value;
      var directors: seq<string> := [];
      var i := 0;
      while i < |crew|
        invariant 0 <= i <= |crew|
        invariant directors == Directors(crew[..i])
      {
        if crew[i].job == "Director" {
          directors := directors + [crew[i].name];
        }
        assert crew[..i + 1][..i] == crew[..i];
        i := i + 1;
      }
      assert crew[..|crew|] == crew;
      features := features + directors;
    }
    assert features == GenrePart(movie) + KeywordPart(movie) + DirectorPart(movie);
    if movie.credits.Some? && movie.credits.value.cast.Some? {
      features := features + Take(movie.credits.value.cast.value, MaxCast);
    }
    assert features == GenrePart(movie) + KeywordPart(movie) + DirectorPart(movie) + CastPart(movie);
    if movie.overview.Some? {
      features := features + [movie.overview.value];
    }
    assert features == GenrePart(movie) + KeywordPart(movie) + DirectorPart(movie) + CastPart(movie) + OverviewPart(movie);
    s := JoinSpaced(features);
  }
}
