/**
 * The availability classifier `page_indicates_in_stock`: Dutch phrases on a
 * bol.com product page decide whether the product can be bought, sold-out
 * phrases first, then availability phrases, then purchase-button labels.
 */
module Classifier {
  import opened Text

  /** Phrases that mark the product as sold out; they win over everything else. */
  const NegativePhrases: seq<string> :=
    ["uitverkocht", "tijdelijk niet leverbaar", "moment niet leverbaar", "niet leverbaar"]

  /** Phrases that say the product is available. */
  const PositivePhrases: seq<string> := ["op voorraad", "direct leverbaar", "beschikbaar"]

  /** Labels of the purchase buttons, the last fallback before "not in stock". */
  const ButtonPhrases: seq<string> := ["in winkelwagen", "bestellen"]

  /** Some phrase of `phrases` occurs in `text`. */
  ghost predicate MentionsOneOf(text: string, phrases: seq<string>) {
    exists k :: 0 <= k < |phrases| && Mentions(text, phrases[k])
  }

  /** Python's `any(x in text for x in phrases)`. */
  function ContainsAny(text: string, phrases: seq<string>): (r: bool)
    ensures r <==> MentionsOneOf(text, phrases)
  {
    if phrases == [] then false
    else
      ContainsMeansMentions(text, phrases[0]);
      assert forall k :: 1 <= k < |phrases| ==> phrases[k] == phrases[1..][k - 1];
      Contains(text, phrases[0]) || ContainsAny(text, phrases[1..])
  }

  /**
   * Whether the extracted page text says the product is in stock. The text is
   * lower-cased first; empty text is never in stock.
   */
  function PageIndicatesInStock(text: string): (r: bool)
    ensures text == "" ==> !r
    ensures MentionsOneOf(Lower(text), NegativePhrases) ==> !r
    ensures !MentionsOneOf(Lower(text), NegativePhrases) ==>
              (r <==> MentionsOneOf(Lower(text), PositivePhrases) || MentionsOneOf(Lower(text), ButtonPhrases))
  {
    if text == "" then false
    else
      var lowered := Lower(text);
      if ContainsAny(lowered, NegativePhrases) then false
      else if ContainsAny(lowered, PositivePhrases) then true
      else if ContainsAny(lowered, ButtonPhrases) then true
      else false
  }

  /**
   * Two of the four sold-out phrases contain "niet leverbaar", so the sold-out
   * test amounts to looking for "uitverkocht" or "niet leverbaar".
   */
  lemma SoldOutTestHasTwoStems(text: string)
    ensures MentionsOneOf(text, NegativePhrases)
        <==> Mentions(text, "uitverkocht") || Mentions(text, "niet leverbaar")
  {
    if MentionsOneOf(text, NegativePhrases) {
      var k :| 0 <= k < |NegativePhrases| && Mentions(text, NegativePhrases[k]);
      var i :| OccursAt(text, NegativePhrases[k], i);
      if k == 1 {
        assert NegativePhrases[1] == "tijdelijk " + "niet leverbaar" + "";
        MentionsInfix("tijdelijk ", "niet leverbaar", "");
        OccursWithin(text, NegativePhrases[1], "niet leverbaar", i, 10);
      } else if k == 2 {
        assert NegativePhrases[2] == "moment " + "niet leverbaar" + "";
        MentionsInfix("moment ", "niet leverbaar", "");
        OccursWithin(text, NegativePhrases[2], "niet leverbaar", i, 7);
      }
    }
    if Mentions(text, "niet leverbaar") {
      assert Mentions(text, NegativePhrases[3]);
    }
    if Mentions(text, "uitverkocht") {
      assert Mentions(text, NegativePhrases[0]);
    }
  }

  /** The classifier ignores letter case. */
  lemma CaseInsensitive(text: string)
    ensures PageIndicatesInStock(Lower(text)) == PageIndicatesInStock(text)
  {
    LowerIdempotent(text);
  }

  /** A sold-out phrase anywhere in the text makes it "not in stock", whatever else the text says. */
  lemma SoldOutAnywhereWins(before: string, k: nat, after: string)
    requires k < |NegativePhrases|
    ensures !PageIndicatesInStock(before + NegativePhrases[k] + after)
  {
    var phrase := NegativePhrases[k];
    assert IsLower(phrase);
    LowerKeepsLowerCase(phrase);
    LowerConcat(before + phrase, after);
    LowerConcat(before, phrase);
    MentionsInfix(Lower(before), phrase, Lower(after));
  }

  /** Without a sold-out phrase, an availability phrase anywhere makes the text "in stock". */
  lemma AvailablePhraseWins(before: string, k: nat, after: string)
    requires k < |PositivePhrases|
    requires !MentionsOneOf(Lower(before + PositivePhrases[k] + after), NegativePhrases)
    ensures PageIndicatesInStock(before + PositivePhrases[k] + after)
  {
    var phrase := PositivePhrases[k];
    assert IsLower(phrase);
    LowerKeepsLowerCase(phrase);
    LowerConcat(before + phrase, after);
    LowerConcat(before, phrase);
    MentionsInfix(Lower(before), phrase, Lower(after));
  }

  /** Without a sold-out phrase, a purchase-button label anywhere makes the text "in stock". */
  lemma ButtonPhraseWins(before: string, k: nat, after: string)
    requires k < |ButtonPhrases|
    requires !MentionsOneOf(Lower(before + ButtonPhrases[k] + after), NegativePhrases)
    ensures PageIndicatesInStock(before + ButtonPhrases[k] + after)
  {
    var phrase := ButtonPhrases[k];
    assert IsLower(phrase);
    LowerKeepsLowerCase(phrase);
    LowerConcat(before + phrase, after);
    LowerConcat(before, phrase);
    MentionsInfix(Lower(before), phrase, Lower(after));
  }

  /**
   * "niet beschikbaar" ("not available") contains "beschikbaar" and so reads as in stock.
   * This lemma and the example below take their text as a parameter fixed by `requires`
   * rather than writing the literal into the `ensures`: a literal there makes the
   * verifier unfold the classifier character by character, which it cannot afford.
   */
  lemma NotAvailableReadsAsAvailable(t: string)
    requires t == "niet beschikbaar"
    ensures PageIndicatesInStock(t)
  {
    NotAvailableIsLowerCase(t);
    NotAvailableHasNoSoldOutPhrase(t);
    NotAvailableSplits(t);
    AvailableAt(t, "niet ", 2, "");
  }

  /** "niet beschikbaar" is already lower-case. */
  lemma NotAvailableIsLowerCase(t: string)
    requires t == "niet beschikbaar"
    ensures Lower(t) == t
  {
    assert IsLower(t);
    LowerKeepsLowerCase(t);
  }

  /** "niet beschikbaar" has no "u" and no "l", so no sold-out phrase. */
  lemma NotAvailableHasNoSoldOutPhrase(t: string)
    requires t == "niet beschikbaar"
    ensures !MentionsOneOf(t, NegativePhrases)
  {
    MissingCharRulesOut(t, "uitverkocht", 'u');
    MissingCharRulesOut(t, "niet leverbaar", 'l');
    SoldOutTestHasTwoStems(t);
  }

  /** "niet beschikbaar" is "niet " followed by the availability phrase "beschikbaar". */
  lemma NotAvailableSplits(t: string)
    requires t == "niet beschikbaar"
    ensures t == "niet " + PositivePhrases[2] + ""
  {
  }

  /** `AvailablePhraseWins` for a text already known to be split around the phrase. */
  lemma AvailableAt(text: string, before: string, k: nat, after: string)
    requires k < |PositivePhrases| && text == before + PositivePhrases[k] + after
    requires !MentionsOneOf(Lower(text), NegativePhrases)
    ensures PageIndicatesInStock(text)
  {
    AvailablePhraseWins(before, k, after);
  }

  /** A sold-out notice beats a restock announcement on the same page. */
  lemma SoldOutBeatsRestockNotice(t: string)
    requires t == "uitverkocht, maar binnenkort op voorraad"
    ensures !PageIndicatesInStock(t)
  {
    RestockNoticeSplits(t);
    SoldOutAt(t, "", 0, ", maar binnenkort op voorraad");
  }

  /** The restock notice opens with the sold-out phrase "uitverkocht". */
  lemma RestockNoticeSplits(t: string)
    requires t == "uitverkocht, maar binnenkort op voorraad"
    ensures t == "" + NegativePhrases[0] + ", maar binnenkort op voorraad"
  {
  }

  /** `SoldOutAnywhereWins` for a text already known to be split around the phrase. */
  lemma SoldOutAt(text: string, before: string, k: nat, after: string)
    requires k < |NegativePhrases| && text == before + NegativePhrases[k] + after
    ensures !PageIndicatesInStock(text)
  {
    SoldOutAnywhereWins(before, k, after);
  }
}
