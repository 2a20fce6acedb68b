# CX self-assessment: scoring and recommendations

This project models the scoring and recommendation logic of the CX checklist
self-assessment script `CXPrinciplesV6.py`, a Streamlit app. The script reads a
primary checklist table and a secondary table. It asks each primary question,
rated 1 to 3. It then suggests secondary checks for weak areas. Finally it shows
a weighted readiness percentage, a warning for every item answered 1, and one of
three readiness tiers.

The model has four modules:

- `Catalogue` (`catalogue.dfy`): the primary rows (id, question, category,
  weight, advice) and secondary rows (primary link, question). `FindRow` is the
  lookup `primary[primary['ID'] == id][col].values[0]`, which reads the first row
  with that id. `IsBlank` is the skip test `pd.isna(q) or str(q).strip() == ""`.
  `Strip` is `TrimStart` followed by `TrimEnd`. Each of these removes the run
  of characters that Python's `str.isspace` accepts at its own end of the string.
- `Answers` (`answers.dfy`): the `responses` dictionary, modelled as an
  insertion-ordered sequence of (id, score) entries. `Put` is dictionary
  assignment. `CollectResponses` is the questionnaire loop of
  `ask_primary_questions`. Each radio answer is an input, `answers[i]` for row `i`.
- `Scoring` (`scoring.dfy`): `ProvideFeedback` is the summary loop of
  `provide_feedback`. It is proved against the functions `Earned`, `Possible`,
  `Percentage`, `Warnings` and `Classify`, and lemmas about those state what the
  score means.
- `Recommendation` (`recommendation.dfy`): `Suggestions` is
  `suggest_secondary_checks`. Each heading is returned as a value holding the
  weak id, its question text and the linked secondary questions.

Arithmetic is exact: weights and the percentage are `real`. A Dafny `real` is an
exact rational, not a float.

## Model

| member | source | states |
|---|---|---|
| Catalogue.FindRow | CXPrinciplesV6.py:41 | the row a column lookup by id reads is the first row in table order carrying that id |
| Catalogue.Strip | CXPrinciplesV6.py:16 | `str(q).strip()`: `TrimStart`, then `TrimEnd`; no ensures of its own, its meaning is stated by the three lemmas below |
| Catalogue.TrimStartDropsLeadingSpace | CXPrinciplesV6.py:16 | left stripping removes exactly the leading run of white-space characters |
| Catalogue.TrimEndDropsTrailingSpace | CXPrinciplesV6.py:16 | right stripping removes exactly the trailing run of white-space characters |
| Catalogue.StripEmptyIffAllSpace | CXPrinciplesV6.py:16 | `strip()` yields the empty string exactly when every character is white space |
| Catalogue.IsBlank | CXPrinciplesV6.py:16 | the skip test `pd.isna(q) or str(q).strip() == ""`; no ensures of its own, see `BlankIffMissingOrWhiteSpace` |
| Catalogue.BlankIffMissingOrWhiteSpace | CXPrinciplesV6.py:16 | a question is skipped exactly when it is missing or made only of white space |
| Answers.Put | CXPrinciplesV6.py:20 | dictionary assignment keeps keys distinct; an existing key keeps its position and takes the new score; a new key is appended |
| Answers.LastSlotIsLast | CXPrinciplesV6.py:15-20 | the index used for a key's value is the last asked row with that id, and there is none only when no asked row has the id |
| Answers.FirstSlotIsFirst | CXPrinciplesV6.py:15-20 | the index that fixes a key's position is the first asked row with that id, and there is none only when no asked row has the id |
| Answers.SlotFoundIffAsked | CXPrinciplesV6.py:15-20 | a row contributes an id exactly when that row's question is not blank |
| Answers.KeysAreAskedIds | CXPrinciplesV6.py:15-20 | after the last row, the keys are exactly the ids of rows with a non-blank question, and each has a catalogue row |
| Answers.CollectResponses | CXPrinciplesV6.py:10-22 | keys are distinct and are exactly the ids of rows with a non-blank question; each value is the answer to the last such row with that id (the later row wins); entries are ordered by the first such row of each id |
| Scoring.ProvideFeedback | CXPrinciplesV6.py:34-57 | the loop's percentage is 100 × Σ score·weight / Σ 3·weight over the responses, with weights read from each id's first row; the warnings are `Warnings` in response order; the tier is `Classify` of the percentage; all answers 3 give exactly 100 and the top tier, all answers 1 give exactly 100/3 and the bottom tier |
| Scoring.Earned | CXPrinciplesV6.py:37-42 | `total_score`: the sum of score·weight over the pairs; no ensures of its own, see `EarnedBetweenThirdAndAll`, `AllTopEarnsAll`, `AllLowestEarnsThird` |
| Scoring.Possible | CXPrinciplesV6.py:38-43 | `max_score`: the sum of 3·weight over the pairs; no ensures of its own, see the same lemmas |
| Scoring.Percentage | CXPrinciplesV6.py:49 | `overall_percentage` = total_score / max_score × 100, defined only for a non-zero max_score; no ensures of its own, see `PercentageBounds`, `PercentageOrderIndependent`, `AllTopIsHundred`, `AllLowestIsThird` |
| Scoring.SumOfPermutation | CXPrinciplesV6.py:40-43 | an accumulated sum is the same for every order of its terms |
| Scoring.PercentageOrderIndependent | CXPrinciplesV6.py:40-49 | the percentage depends only on the multiset of (score, weight) pairs, not on the order of iteration |
| Scoring.EarnedBetweenThirdAndAll | CXPrinciplesV6.py:37-43 | with positive weights, total_score lies between max_score/3 and max_score, and max_score is positive once there is a response |
| Scoring.PercentageBounds | CXPrinciplesV6.py:37-49 | with positive weights and at least one response, 100/3 ≤ percentage ≤ 100 |
| Scoring.WeightedAt | CXPrinciplesV6.py:40-41 | the pair the loop visits at position j is response j with the weight of the first row carrying its id |
| Scoring.WeightedPositive | CXPrinciplesV6.py:41 | if the weight read for every response is positive, every pair's weight is positive |
| Scoring.ReadinessBounds | CXPrinciplesV6.py:37-49 | with at least one response and a positive weight in each response's first row (other rows may have any weight), the division is defined and 100/3 ≤ percentage ≤ 100 |
| Scoring.WeightedPermutation | CXPrinciplesV6.py:40-41 | responses that are a reordering of each other give (score, weight) pairs that are a reordering of each other, and all have rows |
| Scoring.ResponsesOrderIndependent | CXPrinciplesV6.py:40-49 | reordering the responses leaves max_score and the percentage unchanged |
| Scoring.AllTopEarnsAll | CXPrinciplesV6.py:42-43 | if every answer is 3, total_score equals max_score |
| Scoring.AllLowestEarnsThird | CXPrinciplesV6.py:42-43 | if every answer is 1, three times total_score equals max_score |
| Scoring.AllTopIsHundred | CXPrinciplesV6.py:42-49 | if every answer is 3, the percentage is exactly 100 |
| Scoring.AllLowestIsThird | CXPrinciplesV6.py:42-49 | if every answer is 1, the percentage is exactly 100/3 |
| Scoring.ResponsesAllTopIsHundred | CXPrinciplesV6.py:40-49 | if every response is answered 3, the summary's percentage is exactly 100 |
| Scoring.ResponsesAllLowestIsThird | CXPrinciplesV6.py:40-49 | if every response is answered 1, the summary's percentage is exactly 100/3 |
| Scoring.Warnings | CXPrinciplesV6.py:40-47 | the (category, advice) of each response answered 1, read from its id's first row, in response order; no ensures of its own, see `WarningsCount`, `WarningsOfLowest`, `WarningsOnlyFromLowest` |
| Scoring.WarningsCount | CXPrinciplesV6.py:40-47 | there are exactly as many warnings as responses answered 1 |
| Scoring.WarningsOfLowest | CXPrinciplesV6.py:40-47 | every response answered 1 gives the category and advice of its id's first row, in response order |
| Scoring.WarningsOnlyFromLowest | CXPrinciplesV6.py:45-47 | every warning comes from a response answered 1 |
| Scoring.SummaryStep | CXPrinciplesV6.py:40-47 | one round of the loop adds score·weight to the total and 3·weight to the maximum, and a warning exactly when the score is 1 |
| Scoring.Classify | CXPrinciplesV6.py:52-57 | the tier branch on the percentage; no ensures of its own, see `ClassifyThresholds`, `ClassifyMonotone`, `ClassifyWithoutDivision` |
| Scoring.ClassifyThresholds | CXPrinciplesV6.py:52-57 | above 80 is well-developed, above 50 up to 80 needs improvement, 50 and below has significant gaps; exactly 80 is the middle tier and exactly 50 the bottom tier |
| Scoring.ClassifyMonotone | CXPrinciplesV6.py:52-57 | a higher percentage never gives a lower tier |
| Scoring.AboveWithoutDivision | CXPrinciplesV6.py:49-54 | for a positive max_score, `total/max*100 > c` is equivalent to `100·total > c·max` |
| Scoring.ClassifyWithoutDivision | CXPrinciplesV6.py:49-57 | the tier can be decided without dividing: well-developed iff 100·total > 80·max, significant gaps iff 100·total ≤ 50·max |
| Recommendation.LinkedQuestions | CXPrinciplesV6.py:29 | the questions of `secondary[secondary['Primary Link'] == id]` in table order; a row with a missing link matches no id; no ensures of its own, see the three lemmas below |
| Recommendation.LinkedQuestionsInTableOrder | CXPrinciplesV6.py:29-32 | the checks under an id are all secondary rows linked to it, with no deduplication, in table order |
| Recommendation.LinkedQuestionsOnlyLinked | CXPrinciplesV6.py:29 | every listed check comes from a secondary row whose link equals the id |
| Recommendation.UnlinkedHasNoChecks | CXPrinciplesV6.py:29-32 | an id with no linked secondary row gets an empty list of checks |
| Recommendation.Suggestions | CXPrinciplesV6.py:27-32 | `suggest_secondary_checks`: one heading per response scored below 2, with its first-row question and linked checks; no ensures of its own, see `SuggestionsCount`, `SuggestionsOfWeak`, `SuggestionsOnlyWeak`, `StrongNeverSuggested` |
| Recommendation.SuggestionsCount | CXPrinciplesV6.py:27-30 | there is one heading per response scored below 2 |
| Recommendation.SuggestionsOfWeak | CXPrinciplesV6.py:27-32 | every response scored below 2 gets a heading, in response order, even with no linked checks; the heading holds the question of its id's first row and that id's linked checks |
| Recommendation.SuggestionsOnlyWeak | CXPrinciplesV6.py:27-30 | every heading belongs to a response scored below 2 and holds that id's first-row question and linked checks |
| Recommendation.StrongNeverSuggested | CXPrinciplesV6.py:28 | with distinct keys, an id scored 2 or 3 never gets a heading |

## Left out

- `load_checklist` (CXPrinciplesV6.py:4-8) reads both tables from one hard-coded semicolon-delimited file with pandas. This is file I/O through a foreign library, so the two tables are parameters here.
- Streamlit rendering is not modelled: headers, subheaders, `st.write`, `st.warning`, `st.success`, `st.error` and the button. Each function's effect is returned as a value instead: the response entries, the `Suggestion` headings, and the `Feedback` (percentage, warnings, tier).
- `st.radio` is an input. The model takes the value each row's radio returns as `answers[i]`, restricted to 1, 2 or 3.
- `main` (CXPrinciplesV6.py:59-71) is UI wiring around `st.session_state`, so it is not a member. `CollectResponses` ensures every key has a catalogue row, which is what `ProvideFeedback` and `Suggestions` need from it.
- The two-decimal formatting of the percentage and the message texts (CXPrinciplesV6.py:50, 53-57) are presentation only. The model keeps only the tier tag.
- Scoring.ProvideFeedback: `/` and `*` are exact, so float rounding is not modelled. In the source the sum can in principle depend on iteration order by rounding; in the model it cannot.
- Scoring.ProvideFeedback: requires max_score ≠ 0, which excludes two kinds of input. With no responses, max_score stays the integer 0 and the source raises `ZeroDivisionError`; that exception path is not modelled. With responses whose weights sum to 0, the weights are numpy scalars read through `.values[0]`, so the division gives nan or an infinity with a runtime warning instead of raising, and nan falls into the bottom tier; these inputs are excluded too. `ReadinessBounds` shows that positive weights on the rows read and at least one response meet the requirement.
- Missing weight, category or advice cells (NaN) are not modelled: weights are reals and these cells are plain text.
- Catalogue.FindRow: requires a row with the id. The source's `.values[0]` raises `IndexError` otherwise. Keys collected by `CollectResponses` always have a row.
- Recommendation.Suggestions: the weak threshold is the source's constant 2 (`WeakBelow`). It is not a parameter.
- A missing `Primary Link` cell is `None`, which matches no id, as NaN compares unequal to every id. Secondary question cells are plain text. How a missing cell would print is not modelled. A missing primary question used as a heading is kept as `None`.
- Ids are modelled as integers. pandas' mixing of integer and float column types is not modelled.
