/**
 * The CORS origin list of the API configuration: `_parse_cors_origins` reads a
 * comma-separated list, strips each piece, drops the empty ones and removes repeats while
 * keeping the first occurrence of each; `CORS_ORIGINS` is chosen from the `CORS_ORIGINS`
 * and `ENV` environment variables, falling back to five development origins.
 */
module CorsConfig {
  import opened Wrappers
  import opened Strings

  /* ---------------------------------------------------------------------------------- */
  /* Parsing                                                                            */
  /* ---------------------------------------------------------------------------------- */

  /** The pieces kept by the comprehension: each stripped, the empty ones dropped, in order. */
  function Kept(pieces: seq<string>): seq<string> {
    if pieces == [] then []
    else
      var o := Strip(pieces[0]);
      if o == [] then Kept(pieces[1..]) else [o] + Kept(pieces[1..])
  }

  /** `list(dict.fromkeys(xs))`: a key is placed when first inserted, and inserting it again changes nothing. */
  function Dedupe(xs: seq<string>): seq<string> {
    if xs == [] then []
    else
      var r := Dedupe(xs[..|xs| - 1]);
      if xs[|xs| - 1] in r then r else r + [xs[|xs| - 1]]
  }

  /** `_parse_cors_origins` */
  function ParseOrigins(s: string): seq<string> {
    if s == [] then [] else Dedupe(Kept(SplitOn(s, ',')))
  }

  /* ---------------------------------------------------------------------------------- */
  /* Selection                                                                          */
  /* ---------------------------------------------------------------------------------- */

  /** `DEFAULT_CORS_ORIGINS`: the local development servers and the hosted studio (written as host and path). */
  const Defaults: seq<string> := [
    "http://localhost:3000",
    "http://127.0.0.1:3000",
    "http://localhost:5173",
    "http://127.0.0.1:5173",
    "https://studio.firebase.google.com" + "/studio-90517064300"
  ]

  /** `ENV` is exactly `production`. */
  predicate IsProduction(envName: Option<string>) {
    envName == Some("production")
  }

  /**
   * `CORS_ORIGINS` from the values of the `CORS_ORIGINS` and `ENV` variables (`None` when
   * unset). An unset or empty list in production allows no origin; a set list is parsed
   * (the empty one too, outside production); an unset list outside production gives the
   * defaults.
   */
  function SelectOrigins(corsOrigins: Option<string>, envName: Option<string>): seq<string> {
    if (corsOrigins.None? || corsOrigins == Some("")) && IsProduction(envName) then []
    else if corsOrigins.Some? then ParseOrigins(corsOrigins.value)
    else Defaults
  }

  /* ---------------------------------------------------------------------------------- */
  /* Properties                                                                         */
  /* ---------------------------------------------------------------------------------- */

  predicate Distinct(xs: seq<string>) {
    forall i, j :: 0 <= i < j < |xs| ==> xs[i] != xs[j]
  }

  /** An origin as the parser leaves it: non-empty and stripped. */
  predicate Origin(o: string) {
    o != [] && Stripped(o)
  }

  /** The index of the first occurrence of `x` in `xs`. */
  function IndexOf(xs: seq<string>, x: string): (k: nat)
    requires x in xs
    ensures k < |xs| && xs[k] == x && x !in xs[..k]
  {
    if xs[0] == x then 0 else 1 + IndexOf(xs[1..], x)
  }

  /** A kept piece is the stripped form of some input piece, and every non-blank piece is kept. */
  lemma {:induction false} KeptMembers(pieces: seq<string>, o: string)
    ensures o in Kept(pieces) <==> o != [] && exists k :: 0 <= k < |pieces| && Strip(pieces[k]) == o
  {
    if pieces != [] {
      KeptMembers(pieces[1..], o);
      if o != [] && Strip(pieces[0]) != o {
        assert (exists k :: 0 <= k < |pieces| && Strip(pieces[k]) == o)
          ==> exists k :: 0 <= k < |pieces[1..]| && Strip(pieces[1..][k]) == o;
      }
      assert forall k :: 0 <= k < |pieces[1..]| ==> pieces[1..][k] == pieces[k + 1];
    }
  }

  /** Every kept piece is an origin. */
  lemma {:induction false} KeptOrigins(pieces: seq<string>)
    ensures forall o :: o in Kept(pieces) ==> Origin(o)
  {
    if pieces != [] {
      KeptOrigins(pieces[1..]);
    }
  }

  /** Origins are kept as they are. */
  lemma {:induction false} KeptOfOrigins(xs: seq<string>)
    requires forall o :: o in xs ==> Origin(o)
    ensures Kept(xs) == xs
  {
    if xs != [] {
      assert xs[0] in xs;
      StripOfStripped(xs[0]);
      KeptOfOrigins(xs[1..]);
    }
  }

  /** De-duplication keeps exactly the elements of its input. */
  lemma {:induction false} DedupeMembers(xs: seq<string>)
    ensures forall x :: x in Dedupe(xs) <==> x in xs
  {
    if xs != [] {
      DedupeMembers(xs[..|xs| - 1]);
      assert xs == xs[..|xs| - 1] + [xs[|xs| - 1]];
    }
  }

  /** De-duplication leaves no repeat. */
  lemma {:induction false} DedupeDistinct(xs: seq<string>)
    ensures Distinct(Dedupe(xs))
  {
    if xs != [] {
      DedupeDistinct(xs[..|xs| - 1]);
    }
  }

  /** A list without repeats is left as it is. */
  lemma {:induction false} DedupeOfDistinct(xs: seq<string>)
    requires Distinct(xs)
    ensures Dedupe(xs) == xs
  {
    if xs != [] {
      var init := xs[..|xs| - 1];
      DedupeOfDistinct(init);
      assert xs[|xs| - 1] !in init;
      assert xs == init + [xs[|xs| - 1]];
    }
  }

  /** In a prefix, an element first occurs where it first occurs in the whole. */
  lemma IndexOfPrefix(xs: seq<string>, n: nat, x: string)
    requires n <= |xs| && x in xs[..n]
    ensures IndexOf(xs, x) == IndexOf(xs[..n], x)
  {
    var k := IndexOf(xs[..n], x);
    assert xs[k] == x && xs[..k] == xs[..n][..k];
  }

  /** The elements of `d` are elements of `xs`, in the order in which each first occurs in `xs`. */
  predicate FirstOccurrenceOrder(xs: seq<string>, d: seq<string>) {
    forall i, j :: 0 <= i < j < |d| ==> d[i] in xs && d[j] in xs && IndexOf(xs, d[i]) < IndexOf(xs, d[j])
  }

  /** Elements come out in the order of their first occurrence in the input. */
  lemma {:induction false} DedupeOrder(xs: seq<string>)
    ensures FirstOccurrenceOrder(xs, Dedupe(xs))
  {
    if xs != [] {
      var n := |xs| - 1;
      var init := xs[..n];
      var r := Dedupe(init);
      var d := Dedupe(xs);
      DedupeOrder(init);
      DedupeMembers(init);
      assert xs == init + [xs[n]];
      assert d == if xs[n] in r then r else r + [xs[n]];
      forall y | y in r
        ensures y in xs && IndexOf(xs, y) == IndexOf(init, y) < n
      {
        IndexOfPrefix(xs, n, y);
      }
      forall i, j | 0 <= i < j < |d|
        ensures d[i] in xs && d[j] in xs && IndexOf(xs, d[i]) < IndexOf(xs, d[j])
      {
        assert r[i] in init && IndexOf(init, r[i]) >= 0;
        assert d[i] == r[i] && d[i] in r;
        if j < |r| {
          assert d[j] == r[j] && d[j] in r;
        } else {
          assert d[j] == xs[n] && xs[n] !in init;
          assert IndexOf(xs, xs[n]) == n;
        }
      }
    }
  }

  /** An empty list allows no origin. */
  lemma ParseEmpty()
    ensures ParseOrigins("") == []
  {
  }

  /** Every parsed origin is non-empty and stripped, and none appears twice. */
  lemma ParseWellFormed(s: string)
    ensures forall o :: o in ParseOrigins(s) ==> Origin(o)
    ensures Distinct(ParseOrigins(s))
  {
    if s != [] {
      var ks := Kept(SplitOn(s, ','));
      KeptOrigins(SplitOn(s, ','));
      DedupeMembers(ks);
      DedupeDistinct(ks);
    }
  }

  /** An origin is allowed exactly when it is a non-blank comma-separated piece of the list, stripped. */
  lemma ParseMembers(s: string, o: string)
    ensures o in ParseOrigins(s)
      <==> o != [] && exists k :: 0 <= k < |SplitOn(s, ',')| && Strip(SplitOn(s, ',')[k]) == o
  {
    var pieces := SplitOn(s, ',');
    KeptMembers(pieces, o);
    DedupeMembers(Kept(pieces));
    if s == [] {
      assert pieces == [""];
      assert Strip("") == [];
    }
  }

  /** The origins keep the order in which each first appears among the kept pieces. */
  lemma ParseOrder(s: string)
    requires s != []
    ensures var ks := Kept(SplitOn(s, ','));
      var r := ParseOrigins(s);
      FirstOccurrenceOrder(ks, r)
  {
    DedupeOrder(Kept(SplitOn(s, ',')));
  }

  /** A stripped piece has no character its piece lacks. */
  lemma StripKeepsOut(s: string, c: char)
    requires c !in s
    ensures c !in Strip(s)
  {
    var i := StripInfix(s);
    assert forall k :: 0 <= k < |Strip(s)| ==> Strip(s)[k] == s[i + k];
  }

  /** Kept pieces of a comma split hold no comma. */
  lemma {:induction false} KeptNoComma(pieces: seq<string>)
    requires forall p :: p in pieces ==> ',' !in p
    ensures forall o :: o in Kept(pieces) ==> ',' !in o
  {
    if pieces != [] {
      StripKeepsOut(pieces[0], ',');
      KeptNoComma(pieces[1..]);
    }
  }

  /** Writing the origins back as a comma-separated list and parsing it again gives the same origins. */
  lemma ParseIdempotent(s: string)
    ensures ParseOrigins(Join(ParseOrigins(s), ",")) == ParseOrigins(s)
  {
    var r := ParseOrigins(s);
    ParseWellFormed(s);
    if r != [] {
      var pieces := SplitOn(s, ',');
      KeptNoComma(pieces);
      DedupeMembers(Kept(pieces));
      assert r[0] in r;
      JoinFirst(r, ",");
      SplitOnJoin(r, ',');
      KeptOfOrigins(r);
      DedupeOfDistinct(r);
    }
  }

  /** The five defaults are origins without repeats. */
  lemma DefaultsWellFormed()
    ensures forall o :: o in Defaults ==> Origin(o)
    ensures Distinct(Defaults)
  {
    assert Origin(Defaults[0]) && Origin(Defaults[1]) && Origin(Defaults[2]);
    assert |Defaults[4]| == 53;
    assert Origin(Defaults[3]) && Origin(Defaults[4]);
    forall k | 0 <= k < 4
      ensures |Defaults[k]| == 21
    {
    }
    assert Defaults[0][7] == 'l' && Defaults[0][17] == '3';
    assert Defaults[1][7] == '1' && Defaults[1][17] == '3';
    assert Defaults[2][7] == 'l' && Defaults[2][17] == '5';
    assert Defaults[3][7] == '1' && Defaults[3][17] == '5';
  }

  /** The selection rule, case by case. */
  lemma SelectionRule(corsOrigins: Option<string>, envName: Option<string>)
    ensures IsProduction(envName) && (corsOrigins.None? || corsOrigins == Some(""))
      ==> SelectOrigins(corsOrigins, envName) == []
    ensures corsOrigins.Some? && corsOrigins.value != []
      ==> SelectOrigins(corsOrigins, envName) == ParseOrigins(corsOrigins.value)
    ensures corsOrigins == Some("") ==> SelectOrigins(corsOrigins, envName) == []
    ensures corsOrigins.None? && !IsProduction(envName) ==> SelectOrigins(corsOrigins, envName) == Defaults
  {
  }

  /** Whatever is selected is a list of distinct origins. */
  lemma SelectionWellFormed(corsOrigins: Option<string>, envName: Option<string>)
    ensures forall o :: o in SelectOrigins(corsOrigins, envName) ==> Origin(o)
    ensures Distinct(SelectOrigins(corsOrigins, envName))
  {
    DefaultsWellFormed();
    if corsOrigins.Some? {
      ParseWellFormed(corsOrigins.value);
    }
  }
}
