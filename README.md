# AtlasBot core in Dafny

AtlasBot is a Streamlit chatbot for the Hospital Barros Luco. It answers
questions with a language model. When a question is about the hospital,
it first retrieves passages from a small knowledge base. This project
models the chatbot's decision logic and heuristics, and proves properties
about them:

- **Text** (`text.dfy`): the Python string operations the heuristics rely
  on. These are `lower` on ASCII letters, `in` as a substring test,
  `strip()`, `strip(chars)`, `split()`, `split('.')` and the `s[:n]`
  prefix.
- **Tokens** (`tokens.dfy`): the query and document token sets. A token
  is a whitespace-separated word longer than two characters, lower-cased
  and stripped of the punctuation `.,?¡!():;"'`. The search strips before
  lower-casing, while the scorers lower-case before stripping; the model
  proves that both orders give the same set.
- **Retrieval** (`retrieval.dfy`): `hybrid_search_with_metrics`. Each
  document's lexical score is the share of query tokens it contains. It
  is blended 70/30 with a cosine similarity supplied from outside, and the
  results are ranked and cut to `top_k` with Python's slice semantics. The
  ranking is stable, like Python's `sorted`.
- **Metrics** (`metrics.dfy`):
  - `evaluate_relevance`: token overlap scaled to 0–10.
  - `evaluate_faithfulness`: the share of response sentences whose
    first 30 lower-cased characters occur in the context, or that mention
    "servicio", scaled to 0–10.
  - `evaluate_context_precision`: the share of retrieved documents that
    share a token with the query.
- **Safety** (`safety.dfy`):
  - `sanitize_input`: the character deletion.
  - `ethical_check`: prohibited keywords are refused; sensitive keywords
    are allowed with a neutral topic.
  - The `use_rag` keyword gate.
  - The first routing step of `run_agent_logic`.
- **Knowledge** (`knowledge.dfy`): the document store and
  `clean_placeholder_documents`. This drops empty documents, placeholder
  and test documents, and documents shorter than 10 characters once
  stripped. When any document is dropped, the embeddings are discarded.
- **RateLimiting** (`rate_limiting.dfy`): `RateLimiter.is_allowed`, a
  per-user sliding window of 60 seconds. The model proves that, for calls
  made in time order, no 60-second window admits more than
  `requests_per_minute` calls.

The limiter keeps the timestamps of the last 60 seconds and counts
those: a sliding window (AtlasBot.py:707-713).

Python floats are modelled as mathematical reals. The weights 0.7 and 0.3
and the scale 10.0 are therefore exact.

## Model

| member | source | states |
|---|---|---|
| Text.LowerIdempotent | AtlasBot.py:423 | lower-casing twice is lower-casing once |
| Text.LowerKeepsLower | AtlasBot.py:421-423 | a string without upper-case letters is unchanged by `lower()` |
| Text.LowerPrefix | AtlasBot.py:506 | `s.lower()[:30]` is the lower-casing of `s[:30]` |
| Text.ContainsTransitive | AtlasBot.py:506 | a substring of a substring is a substring |
| Text.ContainsLower | AtlasBot.py:422-423 | lower-casing both sides keeps a substring a substring |
| Text.StripCharsInText | AtlasBot.py:503 | the result of `strip(chars)` occurs in the original text |
| Text.StripLowerCommute | AtlasBot.py:324 | stripping a case-closed character set commutes with lower-casing |
| Text.WordsCover | AtlasBot.py:515 | the words of `split()` hold every non-space character in order, and no word holds a space |
| Text.JoinSplit | AtlasBot.py:503 | joining the pieces of `split('.')` with '.' gives back the text |
| Text.SplitJoin | AtlasBot.py:503 | splitting a '.'-join of dot-free pieces gives back the pieces |
| Text.SplitPieceInText | AtlasBot.py:503 | every piece of `split('.')` occurs in the text |
| Tokens.WordSet | AtlasBot.py:515-516 | the scorers' token set `set([w.lower().strip(...) for w in s.split() if len(w) > 2])` (its properties are the rows below) |
| Tokens.SearchWordSet | AtlasBot.py:324-327 | the search's token set `set([w.strip(...).lower() for w in s.split() if len(w) > 2])`, equal to the scorers' set by `Tokens.SearchWordSetIsWordSet` |
| Tokens.ScorerTokensMembers | AtlasBot.py:515-516 | a token is in the set exactly when some word longer than two characters normalises to it |
| Tokens.SearchWordSetIsWordSet | AtlasBot.py:324 | the search's strip-then-lower token set equals the scorers' lower-then-strip set |
| Tokens.WordSetEmpty | AtlasBot.py:528-530 | the token set is empty exactly when no word is longer than two characters |
| Tokens.TokensAreLowerCase | AtlasBot.py:528 | every token is free of upper-case letters and spaces |
| Ratio.RatioBounds | AtlasBot.py:519-520 | an overlap ratio lies in [0, 1], is 1 exactly at a full count and 0 exactly at none |
| Ratio.OverlapSize | AtlasBot.py:519 | the intersection is no bigger than the query set, and equal in size exactly when the query set is included |
| Retrieval.Lexical | AtlasBot.py:328-330 | the lexical score lies in [0, 1]; it is 0 exactly when no token is shared and 1 exactly when the query has tokens and all of them are in the document |
| Retrieval.SliceLen | AtlasBot.py:340 | `[:top_k]` keeps `min(top_k, n)` entries for a non-negative `top_k` |
| Retrieval.Insert | AtlasBot.py:340 | insertion keeps the rank order and adds exactly the new entry |
| Retrieval.InsertKeepsRanking | AtlasBot.py:340 | an entry placed after those it follows and before those it precedes keeps the rank order |
| Retrieval.SortByCombined | AtlasBot.py:340 | the sorted list is a permutation ordered by blend, highest first, with ties in document order |
| Retrieval.TopPrefix | AtlasBot.py:340 | an entry left out of the first `n` ranks comes after every kept entry in rank order: a lower blend, or an equal blend and a higher id |
| Retrieval.HybridSearch | AtlasBot.py:312-348 | no results without documents or similarities, or when there are fewer similarities than documents; otherwise `min(top_k, n)` entries for `top_k >= 0`, and the length of Python's `[:top_k]` for a negative `top_k`, each the scored entry of its document, in rank order, and every kept entry comes before every document left out, so at a tie on the cut the lower id is kept |
| Retrieval.ScoreDocument | AtlasBot.py:326-339 | the entry of one document carries its id, text and similarity, a lexical score in [0, 1] and the 70/30 blend of the two |
| Retrieval.TopEntries | AtlasBot.py:326-340 | the kept entries are scored entries of their documents, and each comes before every left-out document in rank order |
| Retrieval.LexicalUsesScorerTokens | AtlasBot.py:324-330 | the search's lexical score equals the one computed from the scorers' token sets |
| Metrics.Clamp | AtlasBot.py:521 | `max(0, min(10, x))` lies in [0, 10] and leaves a score already in range unchanged |
| Metrics.Relevance | AtlasBot.py:512-523 | relevance lies in [0, 10]; it is 0 for a query without tokens, otherwise the shared-token ratio times 10 |
| Metrics.RelevanceFull | AtlasBot.py:512-523 | relevance is 10 exactly when the query has tokens and all of them occur in the response |
| Metrics.RelevanceZero | AtlasBot.py:512-523 | relevance is 0 exactly when query and response share no token |
| Metrics.RelevanceIsScaledLexical | AtlasBot.py:512-523 | relevance is the search's lexical score of the response, times 10 |
| Metrics.StrippedSentences | AtlasBot.py:503 | the kept sentences are non-empty and no more than the pieces |
| Metrics.Sentences | AtlasBot.py:503 | the stripped, non-empty pieces of `response.split('.')` (their properties are `StrippedSentences` and `SentencesInText`) |
| Metrics.Grounded | AtlasBot.py:506 | a sentence counts when its first 30 lower-cased characters occur in the lower-cased context or it mentions "servicio" |
| Metrics.GroundedCount | AtlasBot.py:506 | the `overlap` sum: how many sentences are grounded, never more than there are sentences |
| Metrics.GroundedCountExtremes | AtlasBot.py:506 | the overlap count is full exactly when every sentence is grounded, and 0 exactly when none is |
| Metrics.Faithfulness | AtlasBot.py:499-510 | faithfulness lies in [0, 10]; it is 0 without sentences, otherwise the grounded ratio times 10 |
| Metrics.SentencesInText | AtlasBot.py:503 | every sentence occurs in the response |
| Metrics.FaithfulnessOfQuotedResponse | AtlasBot.py:499-510 | a response that is a substring of the context, with at least one sentence, scores 10 |
| Metrics.QuotedSentenceGrounded | AtlasBot.py:506 | the first 30 lower-cased characters of a sentence of a response copied from the context occur in the lower-cased context, so the sentence is grounded |
| Metrics.FaithfulnessWithoutContext | AtlasBot.py:506 | with an empty context, faithfulness is 0 exactly when no sentence mentions "servicio" |
| Metrics.DocumentTokens | AtlasBot.py:532-533 | the `content_words` token set of each retrieved document, in order |
| Metrics.SharingCount | AtlasBot.py:531-535 | the `count` of the loop: how many token sets meet the query's, never more than there are sets |
| Metrics.SharingCountExtremes | AtlasBot.py:532-535 | the count is full exactly when every document shares a query token, and 0 exactly when none does |
| Metrics.ContextPrecisionExtremes | AtlasBot.py:525-538 | the sharing count of the results is full exactly when every retrieved document shares a token with the query, and zero exactly when none does |
| Metrics.ContextPrecision | AtlasBot.py:525-538 | precision lies in [0, 1]; it is 0 without query tokens or results, otherwise the share of results sharing a token |
| Safety.DeleteUnsafe | AtlasBot.py:413 | the result is no longer than the input and holds none of the characters `<` `>` `{` `}` `[` `]` `&` `\|` `;` `$` and the backtick |
| Safety.DeleteUnsafeCounts | AtlasBot.py:413 | every other character occurs as often as in the input |
| Safety.DeleteUnsafeAppend | AtlasBot.py:413 | deletion distributes over concatenation |
| Safety.DeleteUnsafeKeepsSafe | AtlasBot.py:413 | a text without unsafe characters is unchanged |
| Safety.DeleteUnsafeIdempotent | AtlasBot.py:413 | sanitising twice is sanitising once |
| Safety.Ethics | AtlasBot.py:421-433 | the verdict of `ethical_check`: a refusal when a prohibited keyword occurs in the lower-cased query, the neutral topic when only a sensitive one does, no message otherwise (its properties are the rows below) |
| Safety.EthicalCheck | AtlasBot.py:417-433 | the answer is the verdict of the keyword filter, and it is a refusal exactly when the message is the refusal text |
| Safety.MentionsMonotone | AtlasBot.py:422-423 | a keyword found in a text is found in every text containing it |
| Safety.EthicsIgnoresCase | AtlasBot.py:421-431 | the verdict is the same for a query and its lower-casing |
| Safety.EthicsRefusalPersists | AtlasBot.py:421-425 | a refused query stays refused inside any longer text |
| Safety.UseRagIgnoresCase | AtlasBot.py:451-453 | the keyword gate is the same for a query and its lower-casing |
| Safety.UseRagPersists | AtlasBot.py:451-453 | a query that opens the gate still does inside any longer text |
| Safety.UseRag | AtlasBot.py:451-453 | `use_rag`: some hospital keyword is a substring of the lower-cased cleaned query (its properties are the two rows below) |
| Safety.Decide | AtlasBot.py:443-465 | the route of a query: refused with the filter's message when the sanitised query has a prohibited keyword, searched when it opens the keyword gate and embeddings are loaded, answered directly otherwise (its properties are the rows below) |
| Safety.DeleteUnsafeLowerCommute | AtlasBot.py:413 | sanitising and lower-casing give the same text in either order |
| Safety.DecideSanitised | AtlasBot.py:443-465 | the route of a query equals the route of its sanitised form, and a query that is not refused goes on without any unsafe character |
| Safety.DecideIgnoresCase | AtlasBot.py:443-465 | a query and its lower-casing take the same kind of route: refuse, retrieve or direct |
| Safety.DeleteUnsafeJoins | AtlasBot.py:413 | an unsafe character between two safe texts disappears and joins them |
| Safety.UnsafeCharDoesNotEvadeFilter | AtlasBot.py:443-449 | an unsafe character put inside a prohibited request does not get it past the filter |
| Knowledge.IsContent | AtlasBot.py:686 | the negation of the drop test: non-empty, no "placeholder" or "test" in the lower-cased text, at least 10 characters once stripped |
| Knowledge.Cleaned | AtlasBot.py:683-689 | the `cleaned` list: the content documents in their order, never more than were given |
| Knowledge.CleanedMembers | AtlasBot.py:685-689 | a document survives cleaning exactly when it is one of the documents and is content |
| Knowledge.CleanedAppend | AtlasBot.py:685-689 | cleaning distributes over concatenation |
| Knowledge.CleanedLengthKept | AtlasBot.py:685-689 | when cleaning keeps as many documents as it was given, every document is content |
| Knowledge.CleanedKeepsContent | AtlasBot.py:685-689 | a list of content documents is cleaned to itself |
| Knowledge.CleanedUnchanged | AtlasBot.py:685-689 | nothing is dropped exactly when every document is content |
| Knowledge.CleanedIdempotent | AtlasBot.py:685-689 | cleaning a cleaned list changes nothing |
| Knowledge.Chatbot.constructor | AtlasBot.py:190-192 | the knowledge base starts empty, without embeddings |
| Knowledge.Chatbot.CleanPlaceholderDocuments | AtlasBot.py:678-698 | returns true; the documents become their cleaned list; when a document was dropped the embeddings and the matrix are discarded, otherwise everything is unchanged |
| RateLimiting.Recent | AtlasBot.py:707-708 | `reqs`: the timestamps later than `now - 60`, in order, never more than were stored |
| RateLimiting.Admit | AtlasBot.py:708-713 | one call: refused with the pruned list when the pruned list has reached the limit, admitted with `now` appended otherwise |
| RateLimiting.AllowedCount | AtlasBot.py:705-713 | how many of a sequence of calls are admitted, each call seeing the history the previous ones left |
| RateLimiting.RecentMembers | AtlasBot.py:707-708 | the kept timestamps are exactly those later than `now - 60` |
| RateLimiting.RecentLater | AtlasBot.py:707-709 | filtering at one time and then at a later time is filtering at the later time |
| RateLimiting.RecentAppend | AtlasBot.py:708-712 | filtering distributes over appending a timestamp |
| RateLimiting.AtMostLimitPerWindow | AtlasBot.py:705-713 | the calls of one 60-second window admit at most the limit minus the requests already recent |
| RateLimiting.AtMostLimitFromScratch | AtlasBot.py:705-713 | from an empty history, one 60-second window admits at most `requests_per_minute` calls |
| RateLimiting.RateLimiter.constructor | AtlasBot.py:701-703 | starts with the given limit, 60 by default, and no history |
| RateLimiting.RateLimiter.IsAllowed | AtlasBot.py:705-713 | admits exactly when fewer than the limit of the user's timestamps are recent; stores the pruned history with `now` appended when admitted; leaves other users alone; keeps every history within the limit |

## Left out

- RateLimiting.AtMostLimitPerWindow: assumes the clock never steps back. The calls of one window must be consecutive, which holds only for calls made in time order. `time.time()` (AtlasBot.py:706) is a wall clock and can step back, and then calls of one window can be separated by a later one.
- The Streamlit interface, the calls to the chat and embedding services, the logging, the timing, the interaction log and its JSON persistence, and the background thread pool are not modelled. They are I/O or concurrency.
- The cosine similarity between the embedding matrix and the query embedding is an input to `Retrieval.HybridSearch`, as an optional sequence of reals. Numerical code from scikit-learn and numpy is not part of this model.
- The prompt-injection rewrite of `sanitize_input` is left out. It is a case-insensitive regular expression with word boundaries. `Safety.Decide` takes the query as it comes out of that rewrite. The PII masking is left out for the same reason.
- Text.Lower: lower-cases ASCII letters only. Python's `str.lower` also lower-cases accented and other non-ASCII letters. Every text the source lower-cases is affected: queries, responses, contexts and documents (AtlasBot.py:327, 423, 451, 502, 506, 515-516, 528, 533, 686). For example, the model gives relevance 0 to the query "área" against the response "ÁREA", where Python gives 10.
- Text.Strip: strips ASCII whitespace only. Python's `str.strip()` and `str.split()` also treat Unicode spaces as whitespace.
- Floats are reals. Rounding in the blend and the ratios is not modelled.
- The only exception modelled is the `IndexError` raised when there are fewer similarities than documents. A failure of the similarity computation (for example embeddings of different sizes) is folded into `sims` being `None`. The broad `except` clauses turn both into an empty result. The other exceptions cannot arise on strings.
- Retrieval.SortByCombined: uses an insertion sort instead of Python's Timsort. Only the result is claimed: a stable descending order by blend.
- `RateLimiter` is never instantiated by the chatbot. It is modelled as a class anyway. The clock is a parameter `now` of `RateLimiting.RateLimiter.IsAllowed`.
- The rest of `run_agent_logic` (building the context text, generating the answer, computing metrics and logging, and the warning put in front of the answer for a sensitive query, AtlasBot.py:491-492) is left out. `Safety.Route` carries no message for an allowed query, so the neutral-topic verdict of `Safety.Ethics` does not reach the route. It is I/O, apart from the metrics, which are modelled on their own.
- `initialize_hospital_documents` (AtlasBot.py:234-253) is not modelled. It sets the documents to six fixed hospital texts and clears the embeddings, and it carries no logic beyond that assignment.
- `get_embeddings` (AtlasBot.py:267-291) and `add_external_documents` (AtlasBot.py:634-661) are not modelled. They call the embedding service and write a JSON file.
