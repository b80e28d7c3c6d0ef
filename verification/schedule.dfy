/** The scheduler's list of countries: `(COUNTRIES || 'vn,us')` split on commas,
    each piece trimmed, blank pieces dropped. */
module Schedule {
  import opened Wrappers
  import JsString

  /** `.filter(Boolean)` on strings: the non-empty ones, in order. */
  function NonBlank(xs: seq<string>): (r: seq<string>)
    ensures |r| <= |xs|
    ensures forall x :: x in r ==> x != "" && x in xs
    ensures forall x :: x in xs && x != "" ==> x in r
    decreases |xs|
  {
    if xs == [] then []
    else if xs[0] != "" then [xs[0]] + NonBlank(xs[1..])
    else NonBlank(xs[1..])
  }

  /** `.filter(Boolean)` keeps each non-empty string where it stands: the
      result of a concatenation is the results of its parts, in order, so
      repeated countries stay repeated. */
  lemma {:induction false} NonBlankAppend(a: seq<string>, b: seq<string>)
    ensures NonBlank(a + b) == NonBlank(a) + NonBlank(b)
    decreases |a|
  {
    if a == [] {
      assert a + b == b;
    } else {
      var ab := a + b;
      assert ab[0] == a[0] && ab[1..] == a[1..] + b;
      NonBlankAppend(a[1..], b);
      if a[0] != "" {
        calc {
          NonBlank(ab);
          [a[0]] + NonBlank(a[1..] + b);
          [a[0]] + (NonBlank(a[1..]) + NonBlank(b));
          ([a[0]] + NonBlank(a[1..])) + NonBlank(b);
        }
      }
    }
  }

  /** A lone string is kept exactly when it is not empty. */
  lemma NonBlankSingle(x: string)
    ensures NonBlank([x]) == (if x != "" then [x] else [])
  {
    assert [x][1..] == [];
  }

  /** `.map(s => s.trim())`. */
  function TrimAll(xs: seq<string>): (r: seq<string>)
    ensures |r| == |xs|
    ensures forall k :: 0 <= k < |xs| ==> r[k] == JsString.Trim(xs[k])
  {
    seq(|xs|, k requires 0 <= k < |xs| => JsString.Trim(xs[k]))
  }

  /** A country name: not blank, no comma, no white space at either end. */
  predicate Clean(c: string) {
    && c != ""
    && ',' !in c
    && !JsString.IsSpace(c[0])
    && !JsString.IsSpace(c[|c| - 1])
  }

  /** Trimming comma-free pieces and dropping the blank ones leaves clean names,
      exactly the trimmed pieces that are not blank. */
  lemma CleanPieces(pieces: seq<string>)
    requires forall k :: 0 <= k < |pieces| ==> ',' !in pieces[k]
    ensures forall c :: c in NonBlank(TrimAll(pieces)) ==> Clean(c)
    ensures forall k :: 0 <= k < |pieces| && JsString.Trim(pieces[k]) != "" ==> JsString.Trim(pieces[k]) in NonBlank(TrimAll(pieces))
    ensures forall c :: c in NonBlank(TrimAll(pieces)) ==> c in TrimAll(pieces)
  {
    var trimmed := TrimAll(pieces);
    var r := NonBlank(trimmed);
    forall c | c in r
      ensures Clean(c)
    {
      var k :| 0 <= k < |trimmed| && trimmed[k] == c;
      assert c == JsString.Trim(pieces[k]);
    }
    forall k | 0 <= k < |pieces| && JsString.Trim(pieces[k]) != ""
      ensures JsString.Trim(pieces[k]) in r
    {
      assert trimmed[k] in trimmed;
    }
  }

  /** The pieces of `raw` between commas, trimmed, blank ones dropped. */
  function CountriesOf(raw: string): (r: seq<string>)
    ensures forall c :: c in r ==> Clean(c)
    ensures var pieces := JsString.Split(raw, ',');
      && (forall k :: 0 <= k < |pieces| && JsString.Trim(pieces[k]) != "" ==> JsString.Trim(pieces[k]) in r)
      && (forall c :: c in r ==> c in TrimAll(pieces))
  {
    var pieces := JsString.Split(raw, ',');
    CleanPieces(pieces);
    NonBlank(TrimAll(pieces))
  }

  /** The countries of a list written out as comma-free pieces joined with
      commas are the trimmed pieces that are not blank, in the written order
      and with their repetitions. */
  lemma CountriesOfPieces(pieces: seq<string>)
    requires |pieces| >= 1
    requires forall k :: 0 <= k < |pieces| ==> ',' !in pieces[k]
    ensures CountriesOf(JsString.Join(pieces, ',')) == NonBlank(TrimAll(pieces))
  {
    JsString.SplitJoin(pieces, ',');
  }

  /** A country listed twice is checked twice. */
  lemma RepeatedCountry()
    ensures CountriesOf("vn,vn") == ["vn", "vn"]
  {
    var pieces := ["vn", "vn"];
    assert JsString.Join(pieces, ',') == "vn,vn" by {
      assert pieces[1..] == ["vn"];
    }
    assert NonBlank(TrimAll(pieces)) == pieces by {
      JsString.TrimOfTrimmed("vn");
      assert TrimAll(pieces) == pieces;
      NonBlankAppend(["vn"], ["vn"]);
      NonBlankSingle("vn");
      assert ["vn"] + ["vn"] == pieces;
    }
    CountriesOfPieces(pieces);
  }

  /** The countries the scheduled job checks, in the configured order:
      `(process.env.COUNTRIES || 'vn,us')` parsed by `CountriesOf`. */
  function ParseCountries(env: Option<string>): (r: seq<string>)
    ensures JsString.Truthy(env) ==> r == CountriesOf(env.value)
    ensures !JsString.Truthy(env) ==> r == CountriesOf("vn,us")
  {
    CountriesOf(JsString.AttrOr(env, "vn,us"))
  }

  /** The page language used for a country: Vietnamese for `vn`, English otherwise. */
  function CycleLanguage(country: string): (lang: string)
    ensures lang == "vi" <==> country == "vn"
    ensures lang == "vi" || lang == "en"
  {
    if country == "vn" then "vi" else "en"
  }

  /** The default list splits into its two codes. */
  lemma SplitDefault()
    ensures JsString.Split("vn,us", ',') == ["vn", "us"]
  {
    var raw := "vn,us";
    assert raw[1..] == "n,us" && raw[2..] == ",us" && raw[3..] == "us";
    assert JsString.Split("us", ',') == ["us"] by {
      assert "us"[1..] == "s";
      assert JsString.Split("s", ',') == ["s"] by { assert "s"[1..] == ""; }
    }
    assert JsString.Split(",us", ',') == ["", "us"];
    assert JsString.Split("n,us", ',') == ["n", "us"] by {
      assert "n,us"[1..] == ",us";
      assert ['n'] + "" == "n";
    }
    assert ['v'] + "n" == "vn";
  }

  /** Without a configured list the job checks Vietnam, then the United States. */
  lemma DefaultCountries()
    ensures ParseCountries(None) == ["vn", "us"]
  {
    SplitDefault();
    var pieces := ["vn", "us"];
    JsString.TrimOfTrimmed(pieces[0]);
    JsString.TrimOfTrimmed(pieces[1]);
    assert TrimAll(pieces) == pieces;
    assert NonBlank(pieces) == pieces by {
      assert pieces[1..] == ["us"];
      assert NonBlank(["us"]) == ["us"];
    }
  }
}
