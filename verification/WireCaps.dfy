/** The gate on ls-refs' unborn argument: which advertised capability lists open it. */
module WireCaps {
  import opened Options
  import opened WireText
  import opened Refs
  import opened Advertise

  ghost predicate Offers(caps: seq<Capability>, name: string) {
    exists i :: 0 <= i < |caps| && caps[i].name == name
  }

  /** Some ls-refs capability has unborn among the features of its value. */
  ghost predicate SupportsUnborn(caps: seq<Capability>) {
    exists i :: 0 <= i < |caps| && caps[i].name == "ls-refs" && Offers(ParseCaps(caps[i].value), "unborn")
  }

  /** lsRefsSupportsUnborn. */
  method LsRefsSupportsUnborn(caps: seq<Capability>) returns (ok: bool)
    ensures ok <==> SupportsUnborn(caps)
  {
    hide ParseCaps, ParseCap;
    for i := 0 to |caps|
      invariant forall k :: 0 <= k < i && caps[k].name == "ls-refs" ==> !Offers(ParseCaps(caps[k].value), "unborn")
    {
      if caps[i].name == "ls-refs" {
        var subs := ParseCaps(caps[i].value);
        for j := 0 to |subs|
          invariant forall k :: 0 <= k < j ==> subs[k].name != "unborn"
        {
          if subs[j].name == "unborn" {
            return true;
          }
        }
      }
    }
    return false;
  }

  ghost predicate IsFeature(f: string) {
    IsToken(IsWireSpace, f) && '=' !in f
  }

  /** The tokens of the capability line `ls-refs=<features>`: the first feature rides with the name. */
  ghost function LineTokens(features: seq<string>): (ts: seq<string>)
    requires features != []
    ensures |ts| == |features| && forall i :: 0 < i < |ts| ==> ts[i] == features[i]
  {
    ["ls-refs=" + features[0]] + features[1..]
  }

  lemma LineIsSpaced(features: seq<string>)
    requires features != []
    ensures Spaced(LineTokens(features)) == "ls-refs=" + Spaced(features)
  {
    if |features| > 1 {
      assert LineTokens(features)[1..] == features[1..];
      assert ("ls-refs=" + features[0]) + " " + Spaced(features[1..]) ==
        "ls-refs=" + (features[0] + " " + Spaced(features[1..]));
    }
  }

  lemma OneFeature(f: string)
    requires IsFeature(f)
    ensures ParseCaps(f) == [Capability(f, "")] && ParseCap(f) == Capability(f, "")
  {
    assert Spaced([f]) == f;
    FieldsOfSpaced(IsWireSpace, [f]);
    assert Cut(f, '=') == None;
  }

  lemma FirstToken(f: string)
    requires IsFeature(f)
    ensures ParseCap("ls-refs=" + f) == Capability("ls-refs", f) && IsToken(IsWireSpace, "ls-refs=" + f)
  {
    assert "ls-refs=" + f == "ls-refs" + "=" + f;
    CapParses("ls-refs", f);
  }

  lemma LineParses(features: seq<string>)
    requires features != [] && forall i :: 0 <= i < |features| ==> IsFeature(features[i])
    ensures var caps := ParseCaps("ls-refs=" + Spaced(features));
      && |caps| == |features| && caps[0] == Capability("ls-refs", features[0])
      && forall i :: 0 < i < |caps| ==> caps[i] == Capability(features[i], "")
  {
    hide Fields, Spaced, ParseCap, IsFeature;
    var ts := LineTokens(features);
    LineIsSpaced(features);
    FirstToken(features[0]);
    forall i | 0 < i < |ts|
      ensures IsToken(IsWireSpace, ts[i]) && ParseCap(ts[i]) == Capability(features[i], "")
    {
      assert IsFeature(features[i]);
      OneFeature(features[i]);
      FeatureIsToken(features[i]);
    }
    FieldsOfSpaced(IsWireSpace, ts);
  }

  lemma FeatureIsToken(f: string)
    requires IsFeature(f)
    ensures IsToken(IsWireSpace, f)
  {
  }

  lemma NoFeatures()
    ensures ParseCaps("") == []
  {
  }

  /**
   A feature list is cut at its first space before the gate looks at it, so the gate opens exactly when
   unborn comes first in the list.
   */
  lemma {:induction false} UnbornMustComeFirst(features: seq<string>)
    requires features != [] && forall i :: 0 <= i < |features| ==> IsFeature(features[i])
    ensures SupportsUnborn(ParseCaps("ls-refs=" + Spaced(features))) <==> features[0] == "unborn"
  {
    hide ParseCaps, Spaced, IsFeature;
    var caps := ParseCaps("ls-refs=" + Spaced(features));
    LineParses(features);
    OneFeature(features[0]);
    NoFeatures();
    OfferOne(Capability(features[0], ""));
    GateLooksAt(caps);
  }

  lemma OfferOne(c: Capability)
    ensures Offers([c], "unborn") <==> c.name == "unborn"
    ensures !Offers([], "unborn")
  {
    if c.name == "unborn" {
      assert [c][0].name == "unborn";
    }
  }

  /** When only the first capability has a value, only its value counts. */
  lemma GateLooksAt(caps: seq<Capability>)
    requires caps != [] && caps[0].name == "ls-refs" && ParseCaps("") == [] && !Offers([], "unborn")
    requires forall i :: 0 < i < |caps| ==> caps[i].value == ""
    ensures SupportsUnborn(caps) <==> Offers(ParseCaps(caps[0].value), "unborn")
  {
    hide ParseCaps, Offers;
  }

  /** A server that lists unborn second is taken not to have it. */
  lemma SecondIsLost()
    ensures !SupportsUnborn(ParseCaps("ls-refs=" + Spaced(["peel", "unborn"])))
  {
    hide ParseCaps, Spaced;
    assert "peel"[0] == 'p' && "unborn"[0] == 'u';
    UnbornMustComeFirst(["peel", "unborn"]);
  }
}
