# Sentiment API: tweet normaliser and inference endpoints in Dafny

This project models the core of a small sentiment-analysis service. It has two parts.

- **The tweet normaliser `preprocess_text`.** This is a fixed pipeline of stages:
  1. delete URLs, `@mentions` and `#` characters;
  2. substitute emojis from a dictionary;
  3. drop non-ASCII characters, lowercase, and delete Python's `string.punctuation`;
  4. split on whitespace, filter stopwords, map each token through a lemmatiser or a stemmer, and join with single spaces.
- **The request logic of the HTTP endpoints.** `/health` reports which artifacts are loaded. `/predict` returns a label, a confidence and two class probabilities. `/explain` returns a LIME explanation. It also has a 422 guard for texts that are too short, and it passes that 422 through its exception handler unchanged.

Strings are `seq<char>`. Each pipeline stage is a pure function. Python's string methods (`replace`, `split`, `split(sep)`, `join`, `strip`) are modelled in their own module, with round-trip lemmas. The vectorizer, the classifier, the LIME explainer, the WordNet lemmatiser, the Porter stemmer and the Unicode table behind `\w` are function-valued parameters. Library calls that can raise return a `Result` carrying the exception text. Probabilities are `real`.

Modules:

| file | module | models |
|---|---|---|
| `results.dfy` | `Results` | Python `None`-or-value, and raised-or-returned outcomes |
| `chars.dfy` | `Chars` | `str.isspace`, `\S`, `\w`, ASCII, `string.punctuation`, ASCII lowercase |
| `seqs.dfy` | `Seqs` | greedy runs, order-preserving filter, subsequence, concatenation |
| `text.dfy` | `Text` | `str.replace`, `str.find`, `str.split(sep)`, `str.split()`, `str.join`, `str.strip` |
| `preprocess.dfy` | `Preprocess` | `api/preprocess_function.py` |
| `app.dfy` | `App` | `api/app.py`: `health`, `predict`, `explain` |

## Model

| member | source | states |
|---|---|---|
| `Chars.PunctuationIsAsciiSymbols` | api/preprocess_function.py:37 | The deleted set `string.punctuation` has 32 characters. All are printable ASCII: no whitespace, no letter, and only `_` is a word character. It contains `@` and `#`. |
| `Preprocess.RemoveUrls` | api/preprocess_function.py:23 | URL removal only deletes characters. The result is a subsequence of the input. |
| `Preprocess.RemoveUrlsNoMatch` | api/preprocess_function.py:23 | Text in which the URL pattern matches at no position passes through unchanged. |
| `Preprocess.RemoveUrlsFirstMatch` | api/preprocess_function.py:23 | At the leftmost match, everything before it is kept unchanged. The match is deleted up to the end of its non-whitespace run, and scanning resumes right after it. Together with `RemoveUrlsNoMatch` this fixes the result for every input. For instance, `"a:httpx y"` becomes `"a: y"`, as with `re.sub`. |
| `Preprocess.RemoveUrlsAppend` | api/preprocess_function.py:23 | No URL reaches across whitespace. If `p` is empty or ends in whitespace, cleaning `p + q` gives the cleaned `p` followed by the cleaned `q`. |
| `Preprocess.HttpsAlternativeSubsumed` | api/preprocess_function.py:23 | The third alternative `https\S+` can never be the one that matches. Wherever it would match, `http\S+` already matches. |
| `Preprocess.BareHttpSurvives` | api/preprocess_function.py:23 | A bare word `http` is not removed when whitespace or an end of the text lies on each side of it, because `\S+` needs at least one more character. The text around it is cleaned as if the word were not there. |
| `Preprocess.RemoveUrlsLeavesNoUrl` | api/preprocess_function.py:23 | After the substitution, the URL pattern matches at no position. No `http` or `www` followed by a non-whitespace character is left. |
| `Preprocess.RemoveMentions` | api/preprocess_function.py:24 | Mention removal only deletes characters. The result is a subsequence of the input. |
| `Preprocess.MentionEnd` | api/preprocess_function.py:24 | A mention `@\w+` runs greedily: every character after the `@` up to the end point is a word character, and the character at the end point, if any, is not. |
| `Preprocess.RemoveMentionsNoMatch` | api/preprocess_function.py:24 | Text in which `@\w+` matches at no position passes through unchanged. |
| `Preprocess.RemoveMentionsFirstMatch` | api/preprocess_function.py:24 | At the leftmost `@` followed by a word character, everything before it is kept unchanged. The `@` and its maximal run of word characters are deleted, and scanning resumes right after them. Together with `RemoveMentionsNoMatch` this fixes the result for every input. For instance, `"me@example.com"` becomes `"me.com"`. |
| `Preprocess.RemoveMentionsAppend` | api/preprocess_function.py:24 | No mention reaches across a character that is neither `@` nor a word character. If `p` is empty or ends in such a character, cleaning `p + q` gives the cleaned `p` followed by the cleaned `q`. |
| `Preprocess.RemoveMentionsLeavesNoMention` | api/preprocess_function.py:24 | After the substitution, no `@` is followed by a word character. |
| `Preprocess.RemoveHashes` | api/preprocess_function.py:25 | No `#` is left. Every other character keeps its number of occurrences and its order. |
| `Text.IndexOf` | api/preprocess_function.py:30 | `str.find`, which `replace` and `split` use to locate the key: a reported position holds the key, and no result means the key occurs nowhere. |
| `Text.IndexOfIsFirst` | api/preprocess_function.py:30 | The position `find` reports is the leftmost one. The key starts at no earlier position. |
| `Text.ReplaceAllAbsent` | api/preprocess_function.py:30 | `str.replace` with a non-empty key that does not occur leaves the text unchanged. |
| `Text.ReplaceAllIsJoinOfSplit` | api/preprocess_function.py:30 | For a non-empty key, `s.replace(k, u)` equals `u.join(s.split(k))`. Every occurrence that `split` finds is replaced, and the text between occurrences is unchanged. |
| `Text.SplitOn` | api/preprocess_function.py:30 | `s.split(k)` returns at least one piece. `find` locates `k` in no piece, and joining the pieces with `k` gives back `s`. Each cut is at the leftmost occurrence: in every piece but the last followed by `k`, the first occurrence of `k` is right after the piece. `SplitOnOverlapExample` shows `"aaa".split("aa")` is `["", "a"]`. |
| `Preprocess.EmojiStage` | api/preprocess_function.py:28-30 | With the dictionary absent or empty, the emoji stage is the identity. |
| `Preprocess.ReplaceEmojisInOrder` | api/preprocess_function.py:29-30 | Keys are processed in dictionary order. The entry added last is replaced last, by `" " + desc + " "`, everywhere in the text the earlier entries left. |
| `Preprocess.StripNonAscii` | api/preprocess_function.py:33 | Only ASCII characters are left, and the result is a subsequence of the input. |
| `Preprocess.StripNonAsciiIsFilter` | api/preprocess_function.py:33 | Deleting maximal runs of characters above 0x7F is the same as keeping exactly the ASCII characters, in order. |
| `Preprocess.LowerAscii` | api/preprocess_function.py:36 | Length is preserved and no `A`-`Z` remains. ASCII stays ASCII. Non-upper-case characters are unchanged, and upper-case letters move up by 32. |
| `Preprocess.RemovePunctuation` | api/preprocess_function.py:37 | No punctuation character remains, and the result is a subsequence of the input. |
| `Preprocess.RemovePunctuationKeepsOthers` | api/preprocess_function.py:37 | A character occurs in the result exactly when it occurs in the input and is not in `string.punctuation`. |
| `Preprocess.CleanText` | api/preprocess_function.py:22-37 | The text handed to the tokeniser is ASCII only, with no upper-case letter and no punctuation, whatever the input. |
| `Text.Split` | api/preprocess_function.py:40 | `str.split()` yields non-empty tokens without whitespace. Their concatenation is the input with its whitespace removed. |
| `Text.SplitTokenFirst` | api/preprocess_function.py:40 | A token followed by whitespace or the end of the text is the first piece, and splitting goes on after it. |
| `Text.SplitSkipsSpace` | api/preprocess_function.py:40 | A whitespace character at the front is dropped. With `SplitTokenFirst` this fixes `split()` for every input: the tokens are the maximal non-whitespace runs, as `SplitRunsExample` shows for `"a  b"`. |
| `Text.SplitAppend` | api/preprocess_function.py:40 | No token crosses whitespace. If `p` is empty or ends in whitespace, `(p + q).split()` is `p.split() + q.split()`. |
| `Seqs.FilterCounts` | api/preprocess_function.py:44 | A list-comprehension filter keeps each satisfying element as often as it occurs and drops every other element. |
| `Preprocess.RemoveStopwords` | api/preprocess_function.py:43-44 | With a list that is absent or empty, the tokens are unchanged. Otherwise no token of the list survives. The result is always an order-preserving subsequence of the tokens. |
| `Preprocess.RemoveStopwordsKeepsOthers` | api/preprocess_function.py:43-44 | With a stopword list, a token occurs in the result exactly when it occurs in the input and is not in the list. |
| `Preprocess.ApplyMorphology` | api/preprocess_function.py:47-50 | The lem/stem stage is a per-token map that keeps count and order. It uses the lemmatiser exactly when `stem_or_lem == "lem"`, and the stemmer otherwise. |
| `Preprocess.SurvivingTokensAreClean` | api/preprocess_function.py:25-44 | Every token that reaches the lemmatiser is non-empty and whitespace-free. It is ASCII only, with no upper-case letter and no punctuation character, so no `@`, no `#` and no leftover emoji. |
| `Preprocess.PreprocessText` | api/preprocess_function.py:11-53 | The result never starts or ends with whitespace. |
| `Preprocess.PreprocessJoinsTokens` | api/preprocess_function.py:53 | If the lemmatiser or stemmer maps tokens to tokens, the result is the mapped tokens joined by single spaces. It has no leading, trailing or doubled space, and splitting it gives back the mapped tokens. |
| `Text.JoinTokensSingleSpaced` | api/preprocess_function.py:53 | `' '.join` of tokens is single-spaced: every whitespace character is one `' '` between two non-whitespace characters. |
| `Text.SplitJoin` | api/preprocess_function.py:53 | Round trip: splitting tokens joined by single spaces gives the tokens back. |
| `Text.JoinSplit` | api/preprocess_function.py:53 | Round trip in the other direction: a single-spaced string equals its own tokens joined by single spaces. |
| `Text.TrimStart` | api/preprocess_function.py:53 | The result is a suffix of the input. Everything removed is whitespace, and the result does not start with whitespace. |
| `Text.TrimEnd` | api/preprocess_function.py:53 | The result is a prefix of the input. Everything removed is whitespace, and the result does not end with whitespace. |
| `Text.Strip` | api/preprocess_function.py:53 | The stripped text neither starts nor ends with whitespace. |
| `Text.StripSingleSpaced` | api/preprocess_function.py:53 | The final `.strip()` changes nothing in a single-spaced join. |
| `Text.SplitStrip` | api/app.py:82 | `s.strip().split()` equals `s.split()`. |
| `App.Health` | api/app.py:38-44 | The status is always `"ok"`. `model_loaded` holds exactly when the model is present, and `vectorizer_loaded` exactly when the vectorizer is present. |
| `App.HealthPredictsService` | api/app.py:38-65 | When the loaded libraries do not fail, health reports both artifacts loaded exactly when `/predict` answers successfully. |
| `App.Max` | api/app.py:59 | `max(proba)` is an element of the row and is at least every element. |
| `App.PredictTry` | api/app.py:52-65 | Inside the `try` block, a vectorizer failure, a classifier failure and a row shorter than two each give their own error text, in that order. Both calls succeeding with a row of at least two entries gives a success, and a success implies exactly that. The response then copies `proba[1]` and `proba[0]`, the confidence is `max(proba)`, and the label is positive exactly when `proba[1] >= proba[0]`. |
| `App.Predict` | api/app.py:48-69 | With the model or vectorizer missing, the result is a 500 that does not depend on the text. Every error is a 500. On success the label follows `proba[1] >= proba[0]`, and the confidence bounds both probabilities. |
| `App.PredictFollowsClassifier` | api/app.py:53-69 | With both artifacts loaded, vectorizer and classifier failures, and a row too short to hold class 1, become a 500 carrying the exception text. Otherwise the response copies `proba[1]` and `proba[0]`, and ties go to positive. The confidence is the row maximum. For two classes it equals the probability of the chosen label, and it lies in [0, 1] when the row does. |
| `App.ExplainCalls` | api/app.py:85-101 | After the guard, an exception from LIME, the vectorizer or the classifier is a runtime error carrying its text, never an `HTTPException`. They are checked in that order. When all three return, the result is the body: the label is positive exactly when `model.predict` returns 1, with LIME's weights and HTML. Conversely, a success means LIME and the vectorizer succeeded. |
| `App.ExplainTry` | api/app.py:78-101 | The `try` block raises an `HTTPException` exactly when the cleaned text has fewer than two tokens, and that exception is the 422. On success, the label is positive exactly when `model.predict` on the cleaned text returns 1. |
| `App.ExplainHandler` | api/app.py:102-108 | An `HTTPException` is re-raised unchanged. Any other exception becomes a 500 carrying its text, and a value passes through. |
| `App.Explain` | api/app.py:74-108 | With artifacts missing, the result is a 500. Every error is a 422 or a 500. With artifacts loaded, the result is a 422 exactly when the cleaned text has fewer than two whitespace-separated tokens. A success is labelled positive exactly when the classifier's `predict` returns 1. |
| `App.ExplainRejectsShortText` | api/app.py:79-83 | With both artifacts loaded, and if the lemmatiser maps tokens to tokens, `/explain` answers 422 "Text too short for explanation" exactly when fewer than two tokens survive stopword filtering. |
| `App.ExplainGuardComesFirst` | api/app.py:81-95 | On short text the 422 is decided before LIME, the vectorizer or the classifier is called. Swapping any of them for others gives the same answer. |
| `App.ExplainSucceeds` | api/app.py:74-101 | With both artifacts loaded, at least two tokens, and LIME, the vectorizer and `model.predict` all returning, `/explain` answers 200. The body has the label from `model.predict` (positive exactly for 1) and LIME's weights and HTML. |
| `App.ExplainLibraryFailureIs500` | api/app.py:93-108 | A failure in LIME, the vectorizer or `model.predict` during explanation is a 500 carrying the exception text, never a 422. |

## Left out

- Artifact loading (api/app.py:15-28) is file I/O. The emoji dictionary and the stopword list are fields of `App.Artifacts`. A model or vectorizer that failed to load is `None`.
- The Streamlit dashboard (api/app_streamlit.py) is presentation and HTTP client code.
- The static landing page (api/app.py:111-138) and FastAPI/pydantic request validation are framework plumbing.
- The internals of the TF-IDF vectorizer, the classifier, the LIME explainer are function-valued parameters and are not modelled. This includes LIME's own calls of the normaliser on perturbed samples (api/app.py:89-91). The internals of NLTK's WordNet lemmatiser and Porter stemmer are likewise left abstract.
- The Unicode table behind `\w` above 0x7F is a parameter (`unicodeWord`). The ASCII part of `\w` and the full whitespace set of `str.isspace` are spelled out.
- `str.lower` is modelled only for ASCII input. The pipeline applies it after the non-ASCII strip, and `CleanText` shows the text is ASCII by then.
- Floating-point rounding is not modelled: probabilities are `real`. "The probabilities sum to about 1" depends on the external classifier, so it is not stated.
- Printing tracebacks (api/app.py:67-68, 106-107) is output only.
- Preprocess.PreprocessText: modelled as a total function. An exception raised inside the lemmatiser or stemmer, such as missing WordNet data, is not modelled.
- App.Predict: only the HTTP status of a library exception is fixed. Its `detail` text is whatever the library raised, and is abstract here. The one message the code itself triggers, numpy's index error for a row without class 1, is spelled out.
- The classifier returns one probability row and one integer label for the single text it is given. Multi-row batches and non-integer labels are not modelled.
- Python strings may hold lone surrogate code points; Dafny's `char` cannot represent them.
- Normalised text can still contain `http`: line 23 only removes `http`, `www` or `https` followed by at least one non-whitespace character. `Preprocess.BareHttpSurvives` shows that a bare `http` between whitespace survives, and punctuation removal can join `ht.tp` into `http` later. The model follows the code. It claims the absence of the URL pattern only right after line 23, and the absence of `@`, `#` and other punctuation only for the tokens that reach the lemmatiser.
- In `explain`, `exp.as_list()` is evaluated when the response is built (api/app.py:99), after `vectorizer.transform` and `model.predict` (api/app.py:95). The model takes the weights from the LIME call (api/app.py:93). So if `as_list` would raise together with `vectorizer.transform` or `model.predict`, the model reports LIME's error where the code reports the vectorizer's or the classifier's.
- App.Artifacts: the loader (api/app.py:22-28) sets both the model and the vectorizer to `None` when either fails to load. The model also allows states where only one is loaded. Those states satisfy every contract but do not arise from the loader.
- App.Loaded: `predict` and `explain` test truthiness (`not model`, api/app.py:50 and 76), while `health` tests `is not None` (api/app.py:42). The model treats a loaded object as always truthy. A model or vectorizer object whose `__bool__` or `__len__` makes it falsy is not modelled.
