/**
 * The colour category of a tag badge. The checks run in a fixed priority:
 * a critical marker wins over a notable one, and a tag with neither is shown
 * in the default style. The `variant` prop is accepted but never read.
 */
module Badge {
  import opened Strings
  import PublicationStats

  datatype Category = Critical | Notable | Default

  datatype Variant = Primary | Secondary | Accent

  /** Where a badge's classes come from: the variant palette or a content category. */
  datatype Style = Palette(variant: Variant) | CategoryStyle(category: Category)

  /** A CCF-A venue, an ESI highly cited paper or a first-quartile journal; case-sensitive. */
  predicate HasCriticalMarker(t: string) {
    Contains(t, "CCF-A") || Contains(t, "ESI") || Contains(t, "一区")
  }

  /** A CCF-B venue or a second-quartile journal. */
  predicate HasNotableMarker(t: string) {
    Contains(t, "CCF-B") || Contains(t, "二区")
  }

  /**
   * Every tag gets exactly one category: critical when it holds a critical
   * marker (whatever else it holds), notable when it holds only notable
   * markers, default when it holds none of the five.
   */
  function Classify(text: string): (c: Category)
    ensures c == Critical <==> HasCriticalMarker(text)
    ensures c == Notable <==> !HasCriticalMarker(text) && HasNotableMarker(text)
    ensures c == Default <==> !HasCriticalMarker(text) && !HasNotableMarker(text)
  {
    if Contains(text, "CCF-A") || Contains(text, "ESI") || Contains(text, "一区") then Critical
    else if Contains(text, "CCF-B") || Contains(text, "二区") then Notable
    else Default
  }

  /**
   * The badge's style: it starts from the primary palette entry and is then
   * overwritten on every branch, so neither the palette nor `variant` ever
   * shows.
   */
  method BadgeStyle(text: string, variant: Variant) returns (active: Style)
    ensures active == CategoryStyle(Classify(text))
    ensures !active.Palette?
  {
    active := Palette(Primary);
    if Contains(text, "CCF-A") || Contains(text, "ESI") || Contains(text, "一区") {
      active := CategoryStyle(Critical);
    } else if Contains(text, "CCF-B") || Contains(text, "二区") {
      active := CategoryStyle(Notable);
    } else {
      active := CategoryStyle(Default);
    }
  }

  /** One priority rule: any of `markers` in the tag selects `category`. */
  datatype Rule = Rule(markers: seq<string>, category: Category)

  /** The classification as an ordered rule list, highest priority first. */
  const Rules: seq<Rule> := [
    Rule(["CCF-A", "ESI", "一区"], Critical),
    Rule(["CCF-B", "二区"], Notable)
  ]

  predicate ContainsAny(t: string, markers: seq<string>) {
    exists i :: 0 <= i < |markers| && Contains(t, markers[i])
  }

  /** The category of the first rule one of whose markers the tag holds, else `fallback`. */
  function FirstMatch(rules: seq<Rule>, t: string, fallback: Category): Category {
    if |rules| == 0 then fallback
    else if ContainsAny(t, rules[0].markers) then rules[0].category
    else FirstMatch(rules[1..], t, fallback)
  }

  /** The chain of checks is the rule list read top to bottom, with default last. */
  lemma ClassifyIsFirstMatchingRule(t: string)
    ensures Classify(t) == FirstMatch(Rules, t, Default)
  {
    var critical := Rules[0].markers;
    var notable := Rules[1].markers;
    assert ContainsAny(t, critical) <==> HasCriticalMarker(t) by {
      if HasCriticalMarker(t) {
        if Contains(t, "CCF-A") {
          assert Contains(t, critical[0]);
        } else if Contains(t, "ESI") {
          assert Contains(t, critical[1]);
        } else {
          assert Contains(t, critical[2]);
        }
      }
    }
    assert ContainsAny(t, notable) <==> HasNotableMarker(t) by {
      if HasNotableMarker(t) {
        if Contains(t, "CCF-B") {
          assert Contains(t, notable[0]);
        } else {
          assert Contains(t, notable[1]);
        }
      }
    }
    assert Rules[1..][1..] == [];
    assert Rules[1..][0] == Rules[1];
    assert FirstMatch(Rules[1..], t, Default) == if ContainsAny(t, notable) then Notable else Default;
  }

  /** A tag that counts toward the high-level total is never shown in the default style. */
  lemma HighLevelTagIsHighlighted(t: string)
    requires PublicationStats.IsHighLevelTag(t)
    ensures Classify(t) != Default
  {
  }

  /**
   * The converse fails: a second-quartile tag is highlighted as notable and an
   * upper-case ESI tag as critical, yet neither counts toward the high-level total.
   */
  lemma HighlightedTagsNotCountedHighLevel()
    ensures Classify("二区") == Notable && !PublicationStats.IsHighLevelTag("二区")
    ensures Classify("ESI") == Critical && !PublicationStats.IsHighLevelTag("ESI")
  {
    ContainsOnlyIfFirstChar("二区", "CCF-A");
    ContainsOnlyIfFirstChar("二区", "ESI");
    ContainsOnlyIfFirstChar("二区", "一区");
    ContainsOnlyIfFirstChar("二区", "CCF-B");
    ContainsOnlyIfFirstChar("ESI", "CCF-A");
    ContainsOnlyIfFirstChar("ESI", "CCF-B");
    ContainsOnlyIfFirstChar("ESI", "一区");
    assert OccursAt("二区", "二区", 0);
    assert OccursAt("ESI", "ESI", 0);
  }

  lemma ContainsOnlyIfFirstChar(s: string, pat: string)
    requires |pat| > 0 && pat[0] !in s
    ensures !Contains(s, pat)
  {
    if Contains(s, pat) {
      ContainsHasFirstChar(s, pat);
    }
  }

  /** The five single-marker tags: critical, notable, critical, notable, critical. */
  lemma ClassifyExamples()
    ensures Classify("CCF-A") == Critical
    ensures Classify("CCF-B") == Notable
    ensures Classify("ESI highly cited") == Critical
    ensures Classify("二区") == Notable
    ensures Classify("一区") == Critical
  {
    assert OccursAt("CCF-A", "CCF-A", 0);
    assert OccursAt("ESI highly cited", "ESI", 0);
    assert OccursAt("一区", "一区", 0);
    assert OccursAt("CCF-B", "CCF-B", 0);
    assert !Contains("CCF-B", "CCF-A") by {
      assert "CCF-B"[0..5] != "CCF-A";
    }
    ContainsOnlyIfFirstChar("CCF-B", "ESI");
    ContainsOnlyIfFirstChar("CCF-B", "一区");
    HighlightedTagsNotCountedHighLevel();
  }

  /**
   * The badge's ESI test is case-sensitive while the summary count's is not: a
   * lower-case "esi" tag is counted as ESI but shown in the default style.
   */
  lemma EsiTestsDisagreeOnCase()
    ensures Classify("esi highly cited") == Default
    ensures PublicationStats.IsEsiTag("esi highly cited")
  {
    var t := "esi highly cited";
    ContainsOnlyIfFirstChar(t, "CCF-A");
    ContainsOnlyIfFirstChar(t, "CCF-B");
    ContainsOnlyIfFirstChar(t, "ESI");
    ContainsOnlyIfFirstChar(t, "一区");
    ContainsOnlyIfFirstChar(t, "二区");
    PublicationStats.EsiTagIgnoresCase(t);
    assert PublicationStats.EsiAt(t, 0);
  }
}
