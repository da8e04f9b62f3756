/**
 * The query-log validity heuristic (`is_valid_entry` in evaluation_model.py).
 *
 * A record has already had its missing keys defaulted: a missing `coin` or
 * `query` is "", a missing `answers` list is [], a missing answer `text` is "".
 * The sentence-embedding similarity test is not modelled: it is an oracle,
 * passed in as a function of the lower-cased coin and the raw answer texts.
 */
module Validity {
  import opened Text

  datatype Answer = Answer(text: string)

  datatype Entry = Entry(coin: string, query: string, answers: seq<Answer>)

  /** The embedding test "some answer scores at least 0.6 against the coin",
      seen as a yes/no answer about (coin, answer texts). */
  type Similarity = (string, seq<string>) -> bool

  /** The coin category that is valid whatever else the record holds. */
  const GeneralCrypto: string := "general crypto"

  /** The answer texts, in order, as handed to the embedding model. */
  function AnswerTexts(answers: seq<Answer>): (texts: seq<string>)
    ensures |texts| == |answers|
    ensures forall i :: 0 <= i < |answers| ==> texts[i] == answers[i].text
  {
    seq(|answers|, i requires 0 <= i < |answers| => answers[i].text)
  }

  /** Whether some answer's lower-cased text contains `coin`, scanning the answers in order. */
  function MentionedInAnswers(coin: string, answers: seq<Answer>): (r: bool)
    ensures r ==> answers != []
    ensures coin == [] ==> (r <==> answers != [])
  {
    if answers == [] then false
    else Contains(coin, Lower(answers[0].text)) || MentionedInAnswers(coin, answers[1..])
  }

  /** The `any` scan holds exactly when some answer's lower-cased text contains the coin. */
  lemma {:induction false} MentionedInAnswersIffSome(coin: string, answers: seq<Answer>)
    ensures MentionedInAnswers(coin, answers) <==>
            exists i :: 0 <= i < |answers| && Contains(coin, Lower(answers[i].text))
  {
    if answers != [] {
      MentionedInAnswersIffSome(coin, answers[1..]);
      if MentionedInAnswers(coin, answers[1..]) {
        var i :| 0 <= i < |answers[1..]| && Contains(coin, Lower(answers[1..][i].text));
        assert answers[i + 1] == answers[1..][i];
      }
      forall i | 1 <= i < |answers| && Contains(coin, Lower(answers[i].text))
        ensures MentionedInAnswers(coin, answers[1..])
      {
        assert answers[1..][i - 1] == answers[i];
      }
    }
  }

  /** `is_valid_entry`: first matching rule wins. */
  function IsValidEntry(e: Entry, similar: Similarity): (valid: bool)
    ensures Lower(e.coin) == GeneralCrypto ==> valid
    ensures valid ==> Lower(e.coin) == GeneralCrypto || (e.query != "" && e.answers != [])
    ensures valid <== e.query != "" && e.answers != [] && similar(Lower(e.coin), AnswerTexts(e.answers))
  {
    var coin := Lower(e.coin);
    if coin == GeneralCrypto then
      true
    else if e.query == "" || e.answers == [] then
      false
    else
      var inputQuery := Lower(e.query);
      var inputCoin := Lower(coin);
      var coinInQuery := Contains(inputCoin, inputQuery);
      var coinInAnswers := MentionedInAnswers(inputCoin, e.answers);
      var similarityValid := similar(coin, AnswerTexts(e.answers));
      if coinInAnswers || similarityValid then
        if coinInQuery then true else true
      else
        false
  }

  /** The policy as a declarative statement: the record is valid when its
      lower-cased coin is the general category, or when it has a query and
      answers and either the lower-cased coin occurs in some lower-cased
      answer text or the similarity oracle approves. */
  ghost predicate ValidByPolicy(e: Entry, similar: Similarity) {
    var coin := Lower(e.coin);
    coin == GeneralCrypto
    || (e.query != "" && e.answers != [] &&
        ((exists i, k :: 0 <= i < |e.answers| && OccursAt(coin, Lower(e.answers[i].text), k))
         || similar(coin, AnswerTexts(e.answers))))
  }

  /** The rule-by-rule decision agrees with the declarative policy on every record and oracle. */
  lemma IsValidEntryIffPolicy(e: Entry, similar: Similarity)
    ensures IsValidEntry(e, similar) <==> ValidByPolicy(e, similar)
  {
    var coin := Lower(e.coin);
    LowerIdempotent(e.coin);
    MentionedInAnswersIffSome(coin, e.answers);
    forall i | 0 <= i < |e.answers|
      ensures Contains(coin, Lower(e.answers[i].text)) <==>
              exists k :: OccursAt(coin, Lower(e.answers[i].text), k)
    {
      ContainsIffOccurs(coin, Lower(e.answers[i].text));
    }
  }

  /** A coin named (in any case) in some answer text makes a record with a query and answers valid. */
  lemma CoinInAnswerValid(e: Entry, similar: Similarity, i: nat)
    requires e.query != "" && i < |e.answers|
    requires Contains(Lower(e.coin), Lower(e.answers[i].text))
    ensures IsValidEntry(e, similar)
  {
    LowerIdempotent(e.coin);
    MentionedInAnswersIffSome(Lower(e.coin), e.answers);
  }

  /** Whether the coin occurs in the query never changes the verdict: any
      two non-empty queries give the same answer. */
  lemma CoinInQueryIrrelevant(e: Entry, similar: Similarity, otherQuery: string)
    requires e.query != "" && otherQuery != ""
    ensures IsValidEntry(e.(query := otherQuery), similar) == IsValidEntry(e, similar)
  {
  }

  /** With neither signal, a record that the first two rules leave open is invalid. */
  lemma NoSignalInvalid(e: Entry, similar: Similarity)
    requires Lower(e.coin) != GeneralCrypto
    requires forall i :: 0 <= i < |e.answers| ==> !Contains(Lower(e.coin), Lower(e.answers[i].text))
    requires !similar(Lower(e.coin), AnswerTexts(e.answers))
    ensures !IsValidEntry(e, similar)
  {
    LowerIdempotent(e.coin);
    MentionedInAnswersIffSome(Lower(e.coin), e.answers);
  }

  /** An empty (or missing) coin is a substring of every text, so any record
      with a query and answers is valid when its coin is empty. */
  lemma EmptyCoinValid(e: Entry, similar: Similarity)
    requires e.coin == "" && e.query != "" && e.answers != []
    ensures IsValidEntry(e, similar)
  {
    EmptyContained(Lower(e.answers[0].text));
    CoinInAnswerValid(e, similar, 0);
  }

  /** coin "Bitcoin", query "price of Bitcoin today", one answer
      "Bitcoin is a cryptocurrency": valid, by the substring rule. */
  lemma BitcoinExampleValid(similar: Similarity)
    ensures IsValidEntry(Entry("Bitcoin", "price of Bitcoin today",
                               [Answer("Bitcoin is a cryptocurrency")]), similar)
  {
    var e := Entry("Bitcoin", "price of Bitcoin today", [Answer("Bitcoin is a cryptocurrency")]);
    var hay := Lower(e.answers[0].text);
    assert Lower(e.coin) == "bitcoin";
    assert hay[..7] == "bitcoin";
    assert OccursAt("bitcoin", hay, 0);
    ContainsIffOccurs("bitcoin", hay);
    CoinInAnswerValid(e, similar, 0);
  }

  /** coin "Ethereum" with an empty query: invalid. */
  lemma EthereumEmptyQueryInvalid(similar: Similarity)
    ensures !IsValidEntry(Entry("Ethereum", "", [Answer("anything")]), similar)
  {
    assert Lower("Ethereum") == "ethereum";
  }

  /** coin "General Crypto" (any case) with no query and no answers: valid. */
  lemma GeneralCryptoExampleValid(similar: Similarity)
    ensures IsValidEntry(Entry("General Crypto", "", []), similar)
  {
    assert Lower("General Crypto") == GeneralCrypto;
  }
}
