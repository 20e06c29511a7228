/** The viral scorer (`score_items`). Each item gets a heuristic score: a base
    of 0.5, keyword boosts, a tiered popularity boost, a recency boost and two
    structural boosts, capped at 1.0 and stored in the item's `viralScore`.
    The items are then returned sorted by that score, highest first.

    Every weight in the source is a multiple of 0.01, so scores are integers
    in hundredths here: the base is 50 and the cap 100. The current time is a
    parameter. */
module Score {
  import opened Items
  import opened Ranking

  const Base: int := 50
  const Cap: int := 100

  /** The viral indicator table, in the source's order, weights in hundredths. */
  const Indicators: seq<(string, nat)> := [
    ("ai", 15), ("chatgpt", 20), ("gpt", 15), ("llm", 15),
    ("automation", 10), ("machine learning", 15),
    ("roi", 10), ("conversion", 10), ("engagement", 10),
    ("personalization", 12), ("customer data", 12),
    ("privacy", 15), ("cookieless", 15), ("first-party data", 15),
    ("tiktok", 12), ("gen z", 12), ("sustainability", 10),
    ("breaking", 15), ("just announced", 15), ("new study", 12),
    ("2025", 10), ("trends", 10), ("future", 8)
  ]

  /** The sum of all weights of a table. */
  function TotalWeight(table: seq<(string, nat)>): nat {
    if table == [] then 0 else TotalWeight(table[..|table| - 1]) + table[|table| - 1].1
  }

  /** The keyword part of the score: every entry whose keyword occurs in the
      lower-cased headline adds its weight once, and matches accumulate, so
      overlapping keywords ("chatgpt" and "gpt") both count. The boost never
      exceeds the table's total weight. */
  function KeywordBoost(table: seq<(string, nat)>, lower: string): (r: nat)
    ensures r <= TotalWeight(table)
  {
    if table == [] then 0
    else
      var (keyword, weight) := table[|table| - 1];
      KeywordBoost(table[..|table| - 1], lower) + (if Contains(lower, keyword) then weight else 0)
  }

  /** One more table entry adds its weight when its keyword matches. */
  lemma KeywordBoostStep(table: seq<(string, nat)>, i: nat, lower: string)
    requires i < |table|
    ensures KeywordBoost(table[..i + 1], lower)
      == KeywordBoost(table[..i], lower) + (if Contains(lower, table[i].0) then table[i].1 else 0)
  {
    assert table[..i + 1][..i] == table[..i];
  }

  /** The upvote tiers; a missing `score` counts as 0. The thresholds are
      strict, so exactly 1000 upvotes earn the 500 tier. */
  function PopularityBoost(score: Option<int>): nat {
    var n := if score.Some? then score.value else 0;
    if n > 1000 then 25
    else if n > 500 then 20
    else if n > 100 then 15
    else if n > 50 then 10
    else 0
  }

  /** Recency counts only for a numeric `published`: younger than 24 hours
      earns 0.2, younger than 72 hours 0.1. A string, or no value, earns
      nothing and is not an error. */
  function RecencyBoost(published: Option<Published>, now: real): nat {
    match published
    case Some(Timestamp(t)) =>
      var hoursOld := (now - t) / 3600.0;
      if hoursOld < 24.0 then 20 else if hoursOld < 72.0 then 10 else 0
    case _ => 0
  }

  /** More than five whitespace-separated words, and a question mark. */
  function StructureBoost(headline: string): nat {
    (if WordCount(Lower(headline)) > 5 then 5 else 0)
    + (if Contains(headline, "?") then 5 else 0)
  }

  /** The item's viral score in hundredths: never below the base of 0.5 and
      never above the cap of 1.0. */
  function ViralScore(item: Item, now: real): (r: int)
    ensures Base <= r <= Cap
  {
    var raw := Base + KeywordBoost(Indicators, Lower(item.headline))
      + PopularityBoost(item.score) + RecencyBoost(item.published, now)
      + StructureBoost(item.headline);
    if raw < Cap then raw else Cap
  }

  /** The item after scoring: `viralScore` set, every other field as it was. */
  function WithScore(item: Item, now: real): Item {
    item.(viralScore := Some(ViralScore(item, now)))
  }

  /** Every item of a list, scored, in the same order. The current time is
      read afresh for each item: `clock[i]` is the reading taken while the
      item at position `i` is scored. */
  function ScoreAll(items: seq<Item>, clock: seq<real>): (r: seq<Item>)
    requires |clock| == |items|
    ensures |r| == |items|
    ensures forall i :: 0 <= i < |items| ==> r[i] == WithScore(items[i], clock[i])
  {
    seq(|items|, i requires 0 <= i < |items| => WithScore(items[i], clock[i]))
  }

  /** The keyword loop: walks the table in order and adds the weight of every
      keyword that occurs in the lower-cased headline. */
  method AddKeywordBoosts(start: int, table: seq<(string, nat)>, headlineLower: string) returns (score: int)
    ensures score == start + KeywordBoost(table, headlineLower)
  {
    score := start;
    var i := 0;
    while i < |table|
      invariant 0 <= i <= |table|
      invariant score == start + KeywordBoost(table[..i], headlineLower)
    {
      var (indicator, boost) := table[i];
      KeywordBoostStep(table, i, headlineLower);
      if Contains(headlineLower, indicator) {
        score := score + boost;
      }
      i := i + 1;
    }
    assert table[..i] == table;
  }

  /** The body of the outer loop up to the cap: the keyword loop, then the
      popularity tiers, recency, the structural checks and `min(score, 1.0)`. */
  method ComputeScore(item: Item, now: real) returns (score: int)
    ensures score == ViralScore(item, now)
  {
    var headlineLower := Lower(item.headline);
    score := AddKeywordBoosts(Base, Indicators, headlineLower);

    var redditScore := if item.score.Some? then item.score.value else 0;
    if redditScore > 1000 {
      score := score + 25;
    } else if redditScore > 500 {
      score := score + 20;
    } else if redditScore > 100 {
      score := score + 15;
    } else if redditScore > 50 {
      score := score + 10;
    }
    assert score == Base + KeywordBoost(Indicators, headlineLower) + PopularityBoost(item.score);

    match item.published {
      case Some(Timestamp(t)) =>
        var hoursOld := (now - t) / 3600.0;
        if hoursOld < 24.0 {
          score := score + 20;
        } else if hoursOld < 72.0 {
          score := score + 10;
        }
      case _ =>
    }
    assert score == Base + KeywordBoost(Indicators, headlineLower) + PopularityBoost(item.score)
      + RecencyBoost(item.published, now);

    if WordCount(headlineLower) > 5 {
      score := score + 5;
    }
    if Contains(item.headline, "?") {
      score := score + 5;
    }

    score := if score < Cap then score else Cap;
  }

  /** `score_items`: writes each item's score into the caller's items in
      place, collects them in input order, and returns them sorted by score,
      highest first. Each item is scored against its own reading of the
      clock, `clock[i]` for the item at position `i`. */
  method ScoreItems(items: array<Item>, clock: seq<real>) returns (ranked: seq<Item>)
    requires |clock| == items.Length
    modifies items
    ensures items[..] == ScoreAll(old(items[..]), clock)
    ensures ranked == SortByScore(items[..])
  {
    ghost var before := items[..];
    var scoredItems: seq<Item> := [];
    var i := 0;
    while i < items.Length
      invariant 0 <= i <= items.Length
      invariant forall j :: 0 <= j < i ==> items[j] == WithScore(before[j], clock[j])
      invariant forall j :: i <= j < items.Length ==> items[j] == before[j]
      invariant scoredItems == items[..i]
    {
      var s := ComputeScore(items[i], clock[i]);
      var scored := items[i].(viralScore := Some(s));
      items[i] := scored;
      scoredItems := scoredItems + [scored];
      i := i + 1;
    }
    assert scoredItems == items[..];
    ranked := SortByScore(scoredItems);
  }

  // ---------------------------------------------------------------------
  // Properties of the score

  /** A table whose keywords all match in `b` whenever they match in `a`
      gives `b` at least the boost of `a`. */
  lemma {:induction false} KeywordBoostMonotone(table: seq<(string, nat)>, a: string, b: string)
    requires forall e :: e in table && Contains(a, e.0) ==> Contains(b, e.0)
    ensures KeywordBoost(table, a) <= KeywordBoost(table, b)
  {
    if table != [] {
      var init := table[..|table| - 1];
      assert table[|table| - 1] in table;
      forall e | e in init ensures e in table {
      }
      KeywordBoostMonotone(init, a, b);
    }
  }

  /** Scoring is monotone in each signal: at least the keyword boost, at
      least as many words, any question mark kept, at least the popularity
      tier and at least the recency tier never give a lower score. */
  lemma ScoreMonotone(x: Item, y: Item, now: real)
    requires KeywordBoost(Indicators, Lower(x.headline)) <= KeywordBoost(Indicators, Lower(y.headline))
    requires WordCount(Lower(x.headline)) <= WordCount(Lower(y.headline))
    requires Contains(x.headline, "?") ==> Contains(y.headline, "?")
    requires PopularityBoost(x.score) <= PopularityBoost(y.score)
    requires RecencyBoost(x.published, now) <= RecencyBoost(y.published, now)
    ensures ViralScore(x, now) <= ViralScore(y, now)
  {
    StructureBoostMonotone(x.headline, y.headline);
    SumMonotone(x, y, now);
  }

  lemma StructureBoostMonotone(a: string, b: string)
    requires WordCount(Lower(a)) <= WordCount(Lower(b))
    requires Contains(a, "?") ==> Contains(b, "?")
    ensures StructureBoost(a) <= StructureBoost(b)
  {
  }

  lemma SumMonotone(x: Item, y: Item, now: real)
    requires KeywordBoost(Indicators, Lower(x.headline)) <= KeywordBoost(Indicators, Lower(y.headline))
    requires StructureBoost(x.headline) <= StructureBoost(y.headline)
    requires PopularityBoost(x.score) <= PopularityBoost(y.score)
    requires RecencyBoost(x.published, now) <= RecencyBoost(y.published, now)
    ensures ViralScore(x, now) <= ViralScore(y, now)
  {
  }

  /** Adding text, such as a keyword, to the end of a headline never lowers
      its score: every keyword match, every word and any question mark stay. */
  lemma AppendNeverLowers(x: Item, suffix: string, now: real)
    ensures ViralScore(x, now) <= ViralScore(x.(headline := x.headline + suffix), now)
  {
    var y := x.(headline := x.headline + suffix);
    LowerAppend(x.headline, suffix);
    forall e | e in Indicators && Contains(Lower(x.headline), e.0)
      ensures Contains(Lower(y.headline), e.0)
    {
      ContainsAppend(Lower(x.headline), Lower(suffix), e.0);
    }
    KeywordBoostMonotone(Indicators, Lower(x.headline), Lower(y.headline));
    WordCountAppend(Lower(x.headline), Lower(suffix));
    if Contains(x.headline, "?") {
      ContainsAppend(x.headline, suffix, "?");
    }
    ScoreMonotone(x, y, now);
  }

  /** A matched entry contributes its whole weight. */
  lemma {:induction false} KeywordBoostOne(table: seq<(string, nat)>, lower: string, i: nat)
    requires i < |table| && Contains(lower, table[i].0)
    ensures KeywordBoost(table, lower) >= table[i].1
  {
    if i < |table| - 1 {
      KeywordBoostOne(table[..|table| - 1], lower, i);
    }
  }

  /** Two matched entries contribute both their weights: matches accumulate. */
  lemma {:induction false} KeywordBoostTwo(table: seq<(string, nat)>, lower: string, i: nat, j: nat)
    requires i < j < |table| && Contains(lower, table[i].0) && Contains(lower, table[j].0)
    ensures KeywordBoost(table, lower) >= table[i].1 + table[j].1
  {
    var init := table[..|table| - 1];
    if j < |table| - 1 {
      KeywordBoostTwo(init, lower, i, j);
    } else {
      KeywordBoostOne(init, lower, i);
    }
  }

  /** A headline shorter than every keyword matches none of them. */
  lemma {:induction false} KeywordBoostShort(table: seq<(string, nat)>, lower: string)
    requires forall i :: 0 <= i < |table| ==> |lower| < |table[i].0|
    ensures KeywordBoost(table, lower) == 0
  {
    if table != [] {
      var init := table[..|table| - 1];
      assert forall i :: 0 <= i < |init| ==> init[i] == table[i];
      KeywordBoostShort(init, lower);
      ContainsIff(lower, table[|table| - 1].0);
    }
  }

  /** Keywords overlap: a headline containing "chatgpt" also contains "gpt"
      and earns both weights. */
  lemma ChatgptAlsoMatchesGpt(lower: string)
    requires Contains(lower, "chatgpt")
    ensures KeywordBoost(Indicators, lower) >= 20 + 15
  {
    assert OccursAt("chatgpt", "gpt", 4);
    ContainsIff("chatgpt", "gpt");
    ContainsTransitive(lower, "chatgpt", "gpt");
    KeywordBoostTwo(Indicators, lower, 1, 2);
  }

  /** Keywords are substrings, not words: "ai" matches inside "maintain". */
  lemma AiMatchesInsideWords(lower: string)
    requires Contains(lower, "maintain")
    ensures KeywordBoost(Indicators, lower) >= 15
  {
    assert OccursAt("maintain", "ai", 1);
    ContainsIff("maintain", "ai");
    ContainsTransitive(lower, "maintain", "ai");
    KeywordBoostOne(Indicators, lower, 0);
  }

  /** More upvotes never earn a smaller popularity boost, a missing count is
      the same as 0, and the thresholds are strict. */
  lemma PopularityTiers(m: int, n: int)
    requires m <= n
    ensures PopularityBoost(Some(m)) <= PopularityBoost(Some(n))
    ensures PopularityBoost(None) == PopularityBoost(Some(0)) == 0
    ensures PopularityBoost(Some(1000)) == 20 && PopularityBoost(Some(1001)) == 25
    ensures PopularityBoost(Some(50)) == 0 && PopularityBoost(Some(51)) == 10
  {
  }

  /** A later timestamp never earns a smaller recency boost; a string or a
      missing `published` earns none. */
  lemma RecencyTiers(t: real, u: real, now: real, text: string)
    requires t <= u
    ensures RecencyBoost(Some(Timestamp(t)), now) <= RecencyBoost(Some(Timestamp(u)), now)
    ensures RecencyBoost(Some(Text(text)), now) == RecencyBoost(None, now) == 0
    ensures now - u < 86400.0 ==> RecencyBoost(Some(Timestamp(u)), now) == 20
  {
  }

  /** Scoring touches only `viralScore`, and scoring a scored item again
      gives the same item: the score does not depend on an earlier score. */
  lemma ScoringSetsOnlyViralScore(x: Item, now: real)
    ensures WithScore(x, now).(viralScore := x.viralScore) == x
    ensures WithScore(WithScore(x, now), now) == WithScore(x, now)
  {
  }

  // ---------------------------------------------------------------------
  // Properties of the ranked output

  /** What `score_items` returns: a permutation of the scored items, in
      non-increasing order of score, stable on ties, every score in
      [0.5, 1.0]. */
  lemma RankedOutput(items: seq<Item>, clock: seq<real>)
    requires |clock| == |items|
    ensures var scored := ScoreAll(items, clock);
            var ranked := SortByScore(scored);
            && multiset(ranked) == multiset(scored)
            && SortedDesc(ranked)
            && SameOrderPerKey(ranked, scored)
            && forall x :: x in ranked ==> x.viralScore.Some? && Base <= Key(x) <= Cap
  {
    var scored := ScoreAll(items, clock);
    var ranked := SortByScore(scored);
    SortByScoreSorted(scored);
    SortByScoreStable(scored);
    SortByScorePermutes(scored);
    forall x | x in ranked ensures x.viralScore.Some? && Base <= Key(x) <= Cap {
      assert x in multiset(scored);
      var i :| 0 <= i < |scored| && scored[i] == x;
      assert x == WithScore(items[i], clock[i]);
    }
  }

  /** The example of the repository's test: two headlines "A" and "B" with
      the string `published` "0" both score 0.5, and the tie keeps them in
      input order, whatever the clock reads. */
  lemma TestScoresSortDesc(clock: seq<real>)
    requires |clock| == 2
    ensures var a := Item("", "A", "", Some(Text("0")), None, None, None);
            var b := Item("", "B", "", Some(Text("0")), None, None, None);
            var ranked := SortByScore(ScoreAll([a, b], clock));
            && ranked == [WithScore(a, clock[0]), WithScore(b, clock[1])]
            && Key(ranked[0]) == Key(ranked[1]) == 50
  {
    var a := Item("", "A", "", Some(Text("0")), None, None, None);
    var b := Item("", "B", "", Some(Text("0")), None, None, None);
    OneLetterScoresBase(a, clock[0]);
    OneLetterScoresBase(b, clock[1]);
    var scored := ScoreAll([a, b], clock);
    assert scored == [WithScore(a, clock[0]), WithScore(b, clock[1])];
    assert scored[1..] == [WithScore(b, clock[1])];
  }

  /** Every keyword of the table has at least two characters. */
  lemma KeywordsAreLong()
    ensures forall i :: 0 <= i < |Indicators| ==> |Indicators[i].0| >= 2
  {
  }

  /** A one-letter headline matches no keyword. */
  lemma OneLetterNoKeyword(lower: string)
    requires |lower| == 1
    ensures KeywordBoost(Indicators, lower) == 0
  {
    KeywordsAreLong();
    KeywordBoostShort(Indicators, lower);
  }

  /** A one-letter headline other than "?" earns no structural boost. */
  lemma OneLetterNoStructure(h: string)
    requires |h| == 1 && h[0] != '?'
    ensures StructureBoost(h) == 0
  {
    ContainsIff(h, "?");
    assert !OccursAt(h, "?", 0);
  }

  /** A one-letter headline other than "?", with no upvotes and a string
      timestamp, earns no boost at all. */
  lemma OneLetterScoresBase(x: Item, now: real)
    requires |x.headline| == 1 && x.headline[0] != '?'
    requires x.score == None && x.published.Some? && x.published.value.Text?
    ensures ViralScore(x, now) == Base
  {
    OneLetterNoKeyword(Lower(x.headline));
    OneLetterNoStructure(x.headline);
  }
}
