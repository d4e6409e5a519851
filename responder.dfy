/** The chat widget's rule-based reply selection: the user's text is lower-cased
    and tested against seven keyword groups in a fixed order; the first group
    with a keyword in the text picks the reply, and a help text is the fallback.
    The `if` chain picks a `Topic`, and `ReplyText` holds each topic's exact reply. */
module Responder {
  import opened JsString

  /** The eight possible replies: one per keyword group, then the fallback. */
  datatype Topic = Villa | Apartment | Commercial | Investment | Budget | Location | Booking | Help

  /** The reply of each keyword group and the fallback help text, word for word. */
  const VillaReply: string :=
    "I found several beautiful villas for you! We have luxury villas starting from $1.2M in premium locations. Would you like to see properties in a specific area?"
  const ApartmentReply: string :=
    "Great choice! Our apartment collection includes modern units from $300K to $2M. Are you looking for a specific number of bedrooms?"
  const CommercialReply: string :=
    "We have excellent commercial properties available! From office spaces to retail locations. What type of commercial property interests you?"
  const InvestmentReply: string :=
    "Our investment properties offer excellent ROI potential! Average returns range from 8-15% annually. Would you like to see our investment calculator?"
  const BudgetReply: string :=
    "I can help you find properties within your budget! What's your price range? We have options from $200K to $50M+"
  const LocationReply: string :=
    "Location is key! We have properties in premium areas including downtown, beachfront, and suburban locations. Which area interests you most?"
  const BookingReply: string :=
    "I'd be happy to help you schedule a property visit! You can book directly through our booking page or I can connect you with one of our agents."
  const HelpReply: string :=
    "Thank you for your question! I can help you with property searches, pricing information, location details, and booking visits. What specific information are you looking for?"

  /** The reply sent for each topic. */
  function ReplyText(topic: Topic): string {
    match topic
    case Villa => VillaReply
    case Apartment => ApartmentReply
    case Commercial => CommercialReply
    case Investment => InvestmentReply
    case Budget => BudgetReply
    case Location => LocationReply
    case Booking => BookingReply
    case Help => HelpReply
  }

  /** The keyword groups, highest priority first. */
  const Keywords: seq<seq<string>> := [
    ["villa", "house"],
    ["apartment", "flat"],
    ["commercial", "office"],
    ["investment", "roi"],
    ["price", "budget"],
    ["location", "area"],
    ["booking", "visit", "appointment"]
  ]

  /** The topic each keyword group answers with, in the same order. */
  const GroupTopics: seq<Topic> := [Villa, Apartment, Commercial, Investment, Budget, Location, Booking]

  /** The chain of `includes` tests of `getRuleBasedResponse`, on the lower-cased text. */
  function Classify(userMessage: string): Topic {
    var message := ToLowerCase(userMessage);
    if Includes(message, "villa") || Includes(message, "house") then Villa
    else if Includes(message, "apartment") || Includes(message, "flat") then Apartment
    else if Includes(message, "commercial") || Includes(message, "office") then Commercial
    else if Includes(message, "investment") || Includes(message, "roi") then Investment
    else if Includes(message, "price") || Includes(message, "budget") then Budget
    else if Includes(message, "location") || Includes(message, "area") then Location
    else if Includes(message, "booking") || Includes(message, "visit") || Includes(message, "appointment") then Booking
    else Help
  }

  /** `getRuleBasedResponse`: the reply of the topic the keyword chain picks. */
  function GetRuleBasedResponse(userMessage: string): string {
    ReplyText(Classify(userMessage))
  }

  /** The eight replies are pairwise different, so a reply tells which topic was picked. */
  lemma ReplyTextInjective(a: Topic, b: Topic)
    ensures ReplyText(a) == ReplyText(b) <==> a == b
  {
    // the eight replies have eight different lengths
    if a != b {
      assert |ReplyText(a)| != |ReplyText(b)|;
    }
  }

  /** Every message gets one of exactly eight fixed replies. */
  lemma ResponseIsOneOfEight(s: string)
    ensures exists t: Topic :: GetRuleBasedResponse(s) == ReplyText(t)
  {
    assert GetRuleBasedResponse(s) == ReplyText(Classify(s));
  }

  /** Some keyword of `keys` occurs in `message`, tested left to right like `a || b || c`. */
  predicate AnyIncluded(message: string, keys: seq<string>) {
    keys != [] && (Includes(message, keys[0]) || AnyIncluded(message, keys[1..]))
  }

  /** `AnyIncluded` holds exactly when one of the keywords is a substring. */
  lemma {:induction false} AnyIncludedIff(message: string, keys: seq<string>)
    ensures AnyIncluded(message, keys) <==> exists k :: 0 <= k < |keys| && Includes(message, keys[k])
  {
    if keys != [] {
      AnyIncludedIff(message, keys[1..]);
      if AnyIncluded(message, keys[1..]) {
        var k :| 0 <= k < |keys[1..]| && Includes(message, keys[1..][k]);
        assert Includes(message, keys[k + 1]);
      }
      forall k | 0 < k < |keys| && Includes(message, keys[k])
        ensures AnyIncluded(message, keys[1..])
      {
        assert keys[1..][k - 1] == keys[k];
      }
    }
  }

  /** Keyword group `g` has a keyword in the (already lower-cased) `message`. */
  predicate MatchesGroup(message: string, g: nat)
    requires g < |Keywords|
  {
    AnyIncluded(message, Keywords[g])
  }

  /** Reference definition from the keyword table: the topic of the first group,
      from `g` on, that matches, or `Help` when none does. */
  function TableTopic(message: string, g: nat): Topic
    requires g <= |Keywords|
    decreases |Keywords| - g
  {
    if g == |Keywords| then Help
    else if MatchesGroup(message, g) then GroupTopics[g]
    else TableTopic(message, g + 1)
  }

  /** A two-keyword group is the `||` of its two `includes` tests. */
  lemma AnyIncludedPair(m: string, a: string, b: string)
    ensures AnyIncluded(m, [a, b]) == (Includes(m, a) || Includes(m, b))
  {
    assert [b][1..] == [];
    assert AnyIncluded(m, [b]) == Includes(m, b);
    assert [a, b][1..] == [b];
  }

  /** A three-keyword group is the `||` of its three `includes` tests. */
  lemma AnyIncludedTriple(m: string, a: string, b: string, c: string)
    ensures AnyIncluded(m, [a, b, c]) == (Includes(m, a) || Includes(m, b) || Includes(m, c))
  {
    assert [a, b, c][1..] == [b, c];
    AnyIncludedPair(m, b, c);
  }

  /** Each keyword group tests exactly the `includes` calls of its branch in the chain. */
  lemma GroupsUnfold(m: string)
    ensures MatchesGroup(m, 0) == (Includes(m, "villa") || Includes(m, "house"))
    ensures MatchesGroup(m, 1) == (Includes(m, "apartment") || Includes(m, "flat"))
    ensures MatchesGroup(m, 2) == (Includes(m, "commercial") || Includes(m, "office"))
    ensures MatchesGroup(m, 3) == (Includes(m, "investment") || Includes(m, "roi"))
    ensures MatchesGroup(m, 4) == (Includes(m, "price") || Includes(m, "budget"))
    ensures MatchesGroup(m, 5) == (Includes(m, "location") || Includes(m, "area"))
    ensures MatchesGroup(m, 6) == (Includes(m, "booking") || Includes(m, "visit") || Includes(m, "appointment"))
  {
    AnyIncludedPair(m, "villa", "house");
    AnyIncludedPair(m, "apartment", "flat");
    AnyIncludedPair(m, "commercial", "office");
    AnyIncludedPair(m, "investment", "roi");
    AnyIncludedPair(m, "price", "budget");
    AnyIncludedPair(m, "location", "area");
    AnyIncludedTriple(m, "booking", "visit", "appointment");
  }

  /** The `if` chain picks the same topic as the keyword table applied to the lower-cased text. */
  lemma ChainAgreesWithTable(s: string)
    ensures Classify(s) == TableTopic(ToLowerCase(s), 0)
  {
    GroupsUnfold(ToLowerCase(s));
  }

  /** The position of each topic in the chain: the group's index, and 7 for `Help`. */
  function TopicIndex(topic: Topic): nat {
    match topic
    case Villa => 0
    case Apartment => 1
    case Commercial => 2
    case Investment => 3
    case Budget => 4
    case Location => 5
    case Booking => 6
    case Help => 7
  }

  /** Group `g` answers with the topic at position `g`; so the group topics are
      pairwise different and none of them is `Help`. */
  lemma GroupTopicsIndexed()
    ensures forall g :: 0 <= g < |GroupTopics| ==> TopicIndex(GroupTopics[g]) == g
  {
  }

  /** The table, started at group `g`, never picks the topic of an earlier group. */
  lemma {:induction false} TableTopicNotBefore(m: string, g: nat)
    requires g <= |Keywords|
    ensures TopicIndex(TableTopic(m, g)) >= g
    decreases |Keywords| - g
  {
    GroupTopicsIndexed();
    if g < |Keywords| && !MatchesGroup(m, g) {
      TableTopicNotBefore(m, g + 1);
    }
  }

  /** The table picks group `h`'s topic from `g` on exactly when `h` matches
      and no group between `g` and `h` does. */
  lemma {:induction false} TableTopicIsFirstMatch(m: string, g: nat, h: nat)
    requires g <= h < |Keywords|
    ensures TableTopic(m, g) == GroupTopics[h] <==>
              MatchesGroup(m, h) && forall j :: g <= j < h ==> !MatchesGroup(m, j)
    decreases h - g
  {
    GroupTopicsIndexed();
    if !MatchesGroup(m, g) {
      if g < h {
        TableTopicIsFirstMatch(m, g + 1, h);
      } else {
        TableTopicNotBefore(m, g + 1);
      }
    }
  }

  /** The table picks `Help` from `g` on exactly when no group from `g` on matches. */
  lemma {:induction false} TableTopicIsHelp(m: string, g: nat)
    requires g <= |Keywords|
    ensures TableTopic(m, g) == Help <==> forall j :: g <= j < |Keywords| ==> !MatchesGroup(m, j)
    decreases |Keywords| - g
  {
    GroupTopicsIndexed();
    if g < |Keywords| && !MatchesGroup(m, g) {
      TableTopicIsHelp(m, g + 1);
    }
  }

  /** Priority: the reply is group `g`'s exactly when `g` is the first group
      with a keyword in the lower-cased text. */
  lemma FirstMatchingGroupWins(s: string, g: nat)
    requires g < |Keywords|
    ensures GetRuleBasedResponse(s) == ReplyText(GroupTopics[g]) <==>
              MatchesGroup(ToLowerCase(s), g) && forall j :: 0 <= j < g ==> !MatchesGroup(ToLowerCase(s), j)
  {
    ChainAgreesWithTable(s);
    TableTopicIsFirstMatch(ToLowerCase(s), 0, g);
    ReplyTextInjective(Classify(s), GroupTopics[g]);
  }

  /** A group that matches hides every later group, however many of their keywords occur. */
  lemma EarlierGroupHidesLater(s: string, g: nat, h: nat)
    requires g < h < |Keywords|
    requires MatchesGroup(ToLowerCase(s), g)
    ensures GetRuleBasedResponse(s) != ReplyText(GroupTopics[h])
  {
    FirstMatchingGroupWins(s, h);
  }

  /** The help text is returned exactly when no keyword of any group is a
      substring of the lower-cased text. */
  lemma DefaultIffNoKeyword(s: string)
    ensures GetRuleBasedResponse(s) == ReplyText(Help) <==>
              forall g, k :: 0 <= g < |Keywords| && 0 <= k < |Keywords[g]| ==> !Includes(ToLowerCase(s), Keywords[g][k])
  {
    ChainAgreesWithTable(s);
    TableTopicIsHelp(ToLowerCase(s), 0);
    ReplyTextInjective(Classify(s), Help);
    forall g | 0 <= g < |Keywords|
      ensures MatchesGroup(ToLowerCase(s), g) <==> exists k :: 0 <= k < |Keywords[g]| && Includes(ToLowerCase(s), Keywords[g][k])
    {
      AnyIncludedIff(ToLowerCase(s), Keywords[g]);
    }
  }

  /** The empty message gets the help text. */
  lemma EmptyGetsDefault()
    ensures GetRuleBasedResponse("") == ReplyText(Help)
  {
  }

  /** Case-insensitivity: the reply depends only on the lower-cased text. */
  lemma CaseInsensitive(s: string)
    ensures GetRuleBasedResponse(ToLowerCase(s)) == GetRuleBasedResponse(s)
  {
    ChainAgreesWithTable(s);
    ChainAgreesWithTable(ToLowerCase(s));
    ToLowerCaseIdempotent(s);
  }

  /** Two messages that agree up to letter case get the same reply. */
  lemma SameLowerSameReply(s: string, t: string)
    requires ToLowerCase(s) == ToLowerCase(t)
    ensures GetRuleBasedResponse(s) == GetRuleBasedResponse(t)
  {
    ChainAgreesWithTable(s);
    ChainAgreesWithTable(t);
  }

  /** A message that mentions "villa" and later "budget", whatever surrounds
      them, such as "Do you have any villas under budget?", matches both the
      villa group and the budget group, and gets the villa reply because that
      group comes first. */
  lemma VillaBeatsBudget(before: string, between: string, after: string)
    ensures MatchesGroup(ToLowerCase(before + "villa" + between + "budget" + after), 0)
    ensures MatchesGroup(ToLowerCase(before + "villa" + between + "budget" + after), 4)
    ensures GetRuleBasedResponse(before + "villa" + between + "budget" + after) == ReplyText(Villa)
  {
    var front := before + "villa" + between;
    var s := front + "budget" + after;
    OccursBetween(before, "villa", between);
    assert OccursAt(s, "villa", |before|) by {
      assert s[|before|..|before| + 5] == front[|before|..|before| + 5];
    }
    OccursBetween(front, "budget", after);
    assert HasNoCapitals("villa") && HasNoCapitals("budget");
    var m := ToLowerCase(s);
    LowerKeepsOccurrence(s, "villa", |before|);
    LowerKeepsOccurrence(s, "budget", |front|);
    IncludesIffOccurs(m, "villa");
    IncludesIffOccurs(m, "budget");
    GroupsUnfold(m);
  }

  /** "VILLA", "Villa" and "villa" all get the villa reply. */
  lemma VillaInAnyCase()
    ensures Classify("VILLA") == Classify("Villa") == Classify("villa") == Villa
  {
    assert ToLowerCase("VILLA") == "villa";
    assert ToLowerCase("Villa") == "villa";
    assert ToLowerCase("villa") == "villa";
    assert "villa"[..5] == "villa";
  }
}
