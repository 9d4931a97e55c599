/** The classifier: a path belongs to the first category, in the order of the
    pattern table, one of whose folder-name needles equals (ignoring case) a
    whole segment of the path; a path that matches no needle belongs to no
    category, which the aggregator files as `Other`. */
module Classifier {
  import opened Options
  import opened Text
  import opened Paths

  datatype Category = Proxy | Optimized | RenderCache | Stills | Backups | Other

  /** One row of the pattern table: a category and its folder-name needles. */
  datatype Rule = Rule(cat: Category, needles: seq<string>)

  /** The pattern table, in its priority order. */
  const Patterns: seq<Rule> := [
    Rule(Proxy, ["Proxy", "ProxyMedia", "Proxies"]),
    Rule(Optimized, ["OptimizedMedia", "Optimized Media"]),
    Rule(RenderCache, ["CacheClip", "RenderCache", "Render Cache"]),
    Rule(Stills, ["Gallery", "Stills", "GalleryStills"]),
    Rule(Backups, ["Backups", "Project Backups", "Resolve Backups"])
  ]

  /** The path's segments, each lower-cased. */
  function LowerAll(p: Path): seq<string> {
    seq(|p|, k requires 0 <= k < |p| => Lower(p[k]))
  }

  /** A rule fires when one of its needles, lower-cased, is a whole segment. */
  predicate Hits(rule: Rule, segs: seq<string>) {
    exists n :: n in rule.needles && Lower(n) in segs
  }

  /** The inner search over one rule's needles. */
  function AnyNeedle(needles: seq<string>, segs: seq<string>): bool {
    if needles == [] then false
    else Lower(needles[0]) in segs || AnyNeedle(needles[1..], segs)
  }

  /** The outer search over the rules, returning at the first that fires. */
  function FirstMatch(rules: seq<Rule>, segs: seq<string>): Option<Category> {
    if rules == [] then None
    else if AnyNeedle(rules[0].needles, segs) then Some(rules[0].cat)
    else FirstMatch(rules[1..], segs)
  }

  /** The inner search answers whether some needle, lower-cased, is one of
      the segments. */
  lemma {:induction false} AnyNeedleSpec(needles: seq<string>, segs: seq<string>)
    ensures AnyNeedle(needles, segs) <==> exists n :: n in needles && Lower(n) in segs
  {
    if needles != [] {
      AnyNeedleSpec(needles[1..], segs);
      assert needles[0] in needles;
      assert forall n :: n in needles[1..] ==> n in needles;
      assert forall n :: n in needles && n != needles[0] ==> n in needles[1..];
    }
  }

  /** The outer search returns the category of the first rule that fires, and
      nothing exactly when no rule fires. */
  lemma {:induction false} FirstMatchSpec(rules: seq<Rule>, segs: seq<string>)
    ensures var r := FirstMatch(rules, segs);
      r.Some? ==> exists i :: 0 <= i < |rules| && rules[i].cat == r.value && Hits(rules[i], segs)
                             && (forall j :: 0 <= j < i ==> !Hits(rules[j], segs))
    ensures FirstMatch(rules, segs).None? <==> forall i :: 0 <= i < |rules| ==> !Hits(rules[i], segs)
  {
    if rules != [] {
      AnyNeedleSpec(rules[0].needles, segs);
      FirstMatchSpec(rules[1..], segs);
      assert forall i :: 1 <= i < |rules| ==> rules[i] == rules[1..][i - 1];
      var r := FirstMatch(rules, segs);
      if r.Some? && !AnyNeedle(rules[0].needles, segs) {
        var i :| 0 <= i < |rules[1..]| && rules[1..][i].cat == r.value && Hits(rules[1..][i], segs)
                 && (forall j :: 0 <= j < i ==> !Hits(rules[1..][j], segs));
        assert rules[i + 1] == rules[1..][i];
        assert forall j :: 1 <= j < i + 1 ==> !Hits(rules[j], segs);
      }
    }
  }

  /** `classify_category`: the first category of the table with a needle
      equal to a whole lower-cased segment, or `None`. */
  function ClassifyCategory(p: Path): Option<Category> {
    FirstMatch(Patterns, LowerAll(p))
  }

  /** The category the aggregator files a path under: `None` becomes `Other`. */
  function CategoryOf(p: Path): Category {
    match ClassifyCategory(p)
    case None => Other
    case Some(c) => c
  }

  /** First-match specification of the classifier, in both directions: the
      result is `c` exactly when the rule for `c` fires and no earlier rule does. */
  lemma ClassifySpec(p: Path, c: Category)
    ensures ClassifyCategory(p) == Some(c) <==>
      exists i :: 0 <= i < |Patterns| && Patterns[i].cat == c && Hits(Patterns[i], LowerAll(p))
                  && (forall j :: 0 <= j < i ==> !Hits(Patterns[j], LowerAll(p)))
  {
    var segs := LowerAll(p);
    FirstMatchSpec(Patterns, segs);
    if exists i :: 0 <= i < |Patterns| && Patterns[i].cat == c && Hits(Patterns[i], segs)
        && forall j :: 0 <= j < i ==> !Hits(Patterns[j], segs) {
      var i :| 0 <= i < |Patterns| && Patterns[i].cat == c && Hits(Patterns[i], segs)
        && forall j :: 0 <= j < i ==> !Hits(Patterns[j], segs);
      var r := ClassifyCategory(p);
      assert r.Some?;
      var i' :| 0 <= i' < |Patterns| && Patterns[i'].cat == r.value && Hits(Patterns[i'], segs)
        && forall j :: 0 <= j < i' ==> !Hits(Patterns[j], segs);
      assert i == i';
    }
  }

  /** A path is filed under `Other` exactly when no rule fires: no needle of
      any category equals one of its segments, ignoring case. */
  lemma OtherSpec(p: Path)
    ensures CategoryOf(p) == Other <==> forall i :: 0 <= i < |Patterns| ==> !Hits(Patterns[i], LowerAll(p))
  {
    var r := ClassifyCategory(p);
    FirstMatchSpec(Patterns, LowerAll(p));
    NoRuleForOther();
    if r.Some? {
      assert r.value != Other;
    }
  }

  /** `Other` is not a row of the table: only the fallback produces it. */
  lemma NoRuleForOther()
    ensures forall i :: 0 <= i < |Patterns| ==> Patterns[i].cat != Other
  {
    forall i | 0 <= i < |Patterns|
      ensures Patterns[i].cat != Other
    {
      assert i == 0 || i == 1 || i == 2 || i == 3 || i == 4;
    }
  }

  /** When the path is filed under a real category, one of that category's
      needles equals a whole segment of the path, ignoring case. */
  lemma WholeSegmentWitness(p: Path)
    requires CategoryOf(p) != Other
    ensures exists i, k :: 0 <= i < |Patterns| && 0 <= k < |p| && Patterns[i].cat == CategoryOf(p)
                        && exists n :: n in Patterns[i].needles && Lower(n) == Lower(p[k])
  {
    var segs := LowerAll(p);
    FirstMatchSpec(Patterns, segs);
    var i :| 0 <= i < |Patterns| && Patterns[i].cat == CategoryOf(p) && Hits(Patterns[i], segs);
    var n :| n in Patterns[i].needles && Lower(n) in segs;
    var k := IndexOf(segs, Lower(n));
  }

  /** A position at which a member of a sequence occurs. */
  lemma IndexOf(segs: seq<string>, x: string) returns (k: nat)
    requires x in segs
    ensures k < |segs| && segs[k] == x
  {
    k :| 0 <= k < |segs| && segs[k] == x;
  }

  /** The category depends only on which lower-cased segments occur in the
      path, not on their order or repetition. */
  lemma {:induction false} FirstMatchBySegmentSet(rules: seq<Rule>, a: seq<string>, b: seq<string>)
    requires forall s :: s in a <==> s in b
    ensures FirstMatch(rules, a) == FirstMatch(rules, b)
  {
    if rules != [] {
      AnyNeedleSpec(rules[0].needles, a);
      AnyNeedleSpec(rules[0].needles, b);
      FirstMatchBySegmentSet(rules[1..], a, b);
    }
  }

  lemma CategoryBySegmentSet(p: Path, q: Path)
    requires forall s :: s in LowerAll(p) <==> s in LowerAll(q)
    ensures CategoryOf(p) == CategoryOf(q)
  {
    FirstMatchBySegmentSet(Patterns, LowerAll(p), LowerAll(q));
  }

  /** A rule whose needles all differ in length from every segment cannot fire. */
  lemma NoHitByLength(rule: Rule, segs: seq<string>, len: nat)
    requires forall k :: 0 <= k < |segs| ==> |segs[k]| == len
    requires forall j :: 0 <= j < |rule.needles| ==> |rule.needles[j]| != len
    ensures !Hits(rule, segs)
  {
    forall n | n in rule.needles
      ensures Lower(n) !in segs
    {
      var j :| 0 <= j < |rule.needles| && rule.needles[j] == n;
    }
  }

  /** No needle of the table has eight characters, so eight-character
      segments fire no rule. */
  lemma EightCharSegmentsFireNoRule(segs: seq<string>)
    requires forall k :: 0 <= k < |segs| ==> |segs[k]| == 8
    ensures forall i :: 0 <= i < |Patterns| ==> !Hits(Patterns[i], segs)
  {
    NoHitByLength(Patterns[0], segs, 8);
    NoHitByLength(Patterns[1], segs, 8);
    NoHitByLength(Patterns[2], segs, 8);
    NoHitByLength(Patterns[3], segs, 8);
    NoHitByLength(Patterns[4], segs, 8);
  }

  /** A needle that is only part of a segment does not match: `OldProxy` is
      not a proxy folder. */
  lemma SubstringDoesNotMatch(p: Path)
    requires p == ["OldProxy", "clip.mov"]
    ensures CategoryOf(p) == Other
  {
    var segs := LowerAll(p);
    forall k | 0 <= k < |segs|
      ensures |segs[k]| == 8
    {
      assert k == 0 || k == 1;
    }
    EightCharSegmentsFireNoRule(segs);
    OtherSpec(p);
  }

  /** Table order decides between two matching folders: proxy comes before
      render cache, and case is ignored. */
  lemma TableOrderDecides()
    ensures CategoryOf(["RENDER CACHE", "proxy", "b.dvcc"]) == Proxy
  {
    var p: Path := ["RENDER CACHE", "proxy", "b.dvcc"];
    var segs := LowerAll(p);
    var needle := "Proxy";
    assert Lower(needle) == "proxy";
    assert Lower(p[1]) == "proxy";
    assert segs[1] == Lower(needle);
    assert needle in Patterns[0].needles;
    assert AnyNeedle(Patterns[0].needles, segs);
  }
}
