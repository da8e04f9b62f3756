# Query-log validity check, modelled in Dafny

This project models the validator half of `evaluation_model.py`: the
heuristic `is_valid_entry` that decides whether a logged crypto query and its
answers belong together, the loop of `main` that turns every logged record
into a `(coin, query, status, answers)` result in input order, and the rows
that `save_results` hands to the CSV writer.

- `text.dfy` (module `Text`): ASCII lower-casing and substring containment,
  the two string operations the heuristic uses, with their characterising
  lemmas.
- `validity.dfy` (module `Validity`): records and answers with their missing
  keys already defaulted (`""`, `[]`), the first-match-wins decision
  `IsValidEntry`, a declarative statement of the same policy
  (`ValidByPolicy`) proved equivalent to it, with each rule stated in
  `IsValidEntry`'s contract or in a lemma of its own.
- `driver.dfy` (module `Driver`): the batch loop and the row formatting as
  methods with loops, proved against per-record specifications, and their
  composition `Run`.

The sentence-embedding test (encode the coin and the answer texts, cosine
similarity, threshold 0.6) is an oracle: a parameter of type
`(string, seq<string>) -> bool` applied to the lower-cased coin and the raw
answer texts, exactly the arguments the source hands to the model. Every
result about the heuristic holds for every such oracle.

## Model

| member | source | states |
|---|---|---|
| Text.LowerChar | evaluation_model.py:23 | lower-casing a character never yields an upper-case letter, leaves every non-upper-case character alone and maps `A`..`Z` onto `a`..`z` |
| Text.Lower | evaluation_model.py:23-45 | lower-casing keeps the length, leaves no upper-case letter, turns each upper-case letter into its lower-case partner and keeps every other character in place |
| Text.LowerEqualIffSameIgnoringCase | evaluation_model.py:23-45 | two strings have the same lower-case form exactly when they are equal up to ASCII case, so the substring tests on lower-cased strings ignore case and nothing else |
| Text.Contains | evaluation_model.py:41-45 | the `in` test on strings: true only when the needle is no longer than the text, always true for the empty needle and for a needle that is a prefix; ContainsIffOccurs gives the exact meaning |
| Text.LowerFixesLowerCase | evaluation_model.py:36 | `.lower()` leaves an already lower-case string unchanged |
| Text.LowerIdempotent | evaluation_model.py:23-36 | lower-casing the already lower-cased coin a second time changes nothing |
| Text.ContainsIffOccurs | evaluation_model.py:41-45 | the `in` test on strings holds exactly when the needle occurs at some position of the haystack |
| Text.EmptyContained | evaluation_model.py:45 | the empty string is contained in every string |
| Validity.AnswerTexts | evaluation_model.py:49 | one text per answer, in the answers' order, each the answer's own text |
| Validity.MentionedInAnswers | evaluation_model.py:45 | the `any(...)` scan: false on no answers, and for an empty coin true exactly when there is an answer; MentionedInAnswersIffSome gives the exact meaning |
| Validity.IsValidEntry | evaluation_model.py:22-65 | the first-match-wins decision: a coin that lower-cases to `general crypto` is valid whatever the query and answers, empty ones included; any other coin with an empty query or empty answers is invalid whatever the oracle says; an approving oracle on a record with a query and answers makes it valid; IsValidEntryIffPolicy gives the exact meaning |
| Validity.MentionedInAnswersIffSome | evaluation_model.py:45 | the `any(...)` scan over the answers holds exactly when some answer's lower-cased text contains the coin |
| Validity.IsValidEntryIffPolicy | evaluation_model.py:22-65 | on every record and every similarity oracle, the rule-by-rule decision equals the declarative policy: general category, or non-empty query and answers with the coin in some answer or the oracle approving |
| Validity.CoinInAnswerValid | evaluation_model.py:41-63 | a non-empty query plus an answer whose lower-cased text contains the lower-cased coin makes the record valid |
| Validity.CoinInQueryIrrelevant | evaluation_model.py:41-63 | replacing one non-empty query by any other non-empty query never changes the verdict, so whether the coin occurs in the query has no effect |
| Validity.NoSignalInvalid | evaluation_model.py:59-65 | with no answer containing the coin and no approval from the oracle, a record whose coin is not the general category is invalid |
| Validity.EmptyCoinValid | evaluation_model.py:23-45 | an empty coin occurs in every answer text, so a record with an empty coin, a query and answers is valid |
| Validity.BitcoinExampleValid | evaluation_model.py:22-63 | coin `Bitcoin`, query `price of Bitcoin today`, answer `Bitcoin is a cryptocurrency` is valid for every oracle |
| Validity.EthereumEmptyQueryInvalid | evaluation_model.py:32-33 | coin `Ethereum` with an empty query is invalid for every oracle |
| Validity.GeneralCryptoExampleValid | evaluation_model.py:23-29 | coin `General Crypto` with no query and no answers is valid |
| Driver.StatusText | evaluation_model.py:86 | the status word is `valid` exactly for a valid verdict and `invalid` exactly for an invalid one |
| Driver.ResultFor | evaluation_model.py:85-88 | the result for one record keeps its raw coin, query and answers, with status `valid` exactly when the record is valid and `invalid` exactly when it is not |
| Driver.ValidateAll | evaluation_model.py:83-88 | one result per record, in input order, carrying the record's own coin, query and answers, with status `valid` exactly when the record is valid and `invalid` exactly when it is not |
| Driver.AnswersCell | evaluation_model.py:74-78 | the answers column starts with `text: `, is just `text: ` when there are no answers, and otherwise continues with the first answer's text |
| Driver.SaveRows | evaluation_model.py:70-79 | the header row `coin, query, status, answers` followed by exactly one four-column row per result, in order |
| Driver.Run | evaluation_model.py:81-89 | one row more than there are records: the header, then for record i its coin, its query, `valid` or `invalid` according to the heuristic, and its answers column |

## Left out

- Loading the sentence-embedding model, encoding, cosine similarity and the 0.6 threshold (evaluation_model.py:15, 48-56): a foreign library over floating point; replaced by the similarity oracle parameter.
- Reading `query_logs.json` (evaluation_model.py:18-20) and opening and writing the CSV file (evaluation_model.py:68-69, 89): I/O; the model returns the rows the CSV writer would receive, before any CSV quoting.
- JSON values of other types: records here have string `coin` and `query`, a list `answers` and answers with a string `text`. In the source, other values either act like the empty value or raise at evaluation_model.py:23, 35, 45, 49 or 74, depending on which rule is reached first. For instance, a falsy non-string `query` (`null`, `0`, `false`, `{}`) acts like `""` (so the record is `invalid` unless the coin is the general category), while a `null`, `0` or `false` `answers` makes the run raise at line 74 whatever the coin.
- Unicode case mapping: `Lower` folds only the ASCII letters `A`..`Z`, whereas Python's `str.lower` also folds other scripts.
- The classifier-training script (evaluation_model.py:95-138): dataframe loading, three scikit-learn classifiers, metrics, plotting and file output, all foreign calls over floating point.
- `crypto_sights/run.py`: a web-server bootstrap that launches a subprocess, with no logic of its own.
