/** The tweet normaliser `preprocess_text`: a fixed pipeline of string
    stages followed by tokenisation, stopword filtering and a per-token
    lemmatiser or stemmer. */
module Preprocess {
  import opened Chars
  import opened Seqs
  import opened Text
  import opened Results

  /** What the normaliser takes from outside: the Unicode part of `\w`, and
      NLTK's WordNet lemmatiser and Porter stemmer. */
  datatype TextTools = TextTools(
    unicodeWord: char -> bool,
    lemmatize: string -> string,
    stem: string -> string)

  /** The emoji dictionary as loaded from JSON: (emoji, description) pairs
      in the dictionary's iteration order. */
  type EmojiTable = seq<(string, string)>

  // ---------------------------------------------------------------------
  // Stage 1: URLs, mentions, hashtags
  // ---------------------------------------------------------------------

  /** The pattern `http\S+|www\S+|https\S+` matches at the start of `s`.
      Each alternative's literal part is itself non-whitespace, so a match
      always runs to the end of the leading non-whitespace run. */
  predicate UrlAt(s: string) {
    || (HasPrefix(s, "http") && |s| > 4 && NotSpace(s[4]))
    || (HasPrefix(s, "www") && |s| > 3 && NotSpace(s[3]))
    || (HasPrefix(s, "https") && |s| > 5 && NotSpace(s[5]))
  }

  lemma UrlAtStartsRun(s: string)
    requires UrlAt(s)
    ensures s[0] == 'h' || s[0] == 'w'
    ensures Span(s, NotSpace) > 0
  {
    if HasPrefix(s, "http") {
      assert s[0] == s[..4][0];
    } else if HasPrefix(s, "www") {
      assert s[0] == s[..3][0];
    } else {
      assert s[0] == s[..5][0];
    }
  }

  /** `re.sub(r"http\S+|www\S+|https\S+", '', s)`: scanning left to right,
      every match is deleted and scanning resumes after it. */
  function RemoveUrls(s: string): (r: string)
    ensures IsSubsequence(r, s)
    decreases |s|
  {
    if |s| == 0 then ""
    else if UrlAt(s) then
      UrlAtStartsRun(s);
      var n := Span(s, NotSpace);
      SubsequenceOfSuffix(RemoveUrls(s[n..]), s, n);
      RemoveUrls(s[n..])
    else
      assert s == [s[0]] + s[1..];
      [s[0]] + RemoveUrls(s[1..])
  }

  /** A `@` followed by a word character: where `@\w+` matches. */
  predicate MentionAt(s: string, unicodeWord: char -> bool) {
    |s| >= 2 && s[0] == '@' && IsWord(unicodeWord, s[1])
  }

  /** Where the mention at the start of `s` ends: `@` and the maximal run
      of word characters after it. */
  function MentionEnd(s: string, unicodeWord: char -> bool): (e: nat)
    requires |s| > 0
    ensures 1 <= e <= |s|
    ensures forall i | 1 <= i < e :: IsWord(unicodeWord, s[i])
    ensures e < |s| ==> !IsWord(unicodeWord, s[e])
  {
    var k := Span(s[1..], Word(unicodeWord));
    assert forall i | 1 <= i < 1 + k :: s[i] == s[1..][i - 1];
    assert 1 + k < |s| ==> s[1 + k] == s[1..][k];
    1 + k
  }

  /** `re.sub(r"@\w+", '', s)` */
  function RemoveMentions(s: string, unicodeWord: char -> bool): (r: string)
    ensures IsSubsequence(r, s)
    decreases |s|
  {
    if |s| == 0 then ""
    else if MentionAt(s, unicodeWord) then
      var n := MentionEnd(s, unicodeWord);
      SubsequenceOfSuffix(RemoveMentions(s[n..], unicodeWord), s, n);
      RemoveMentions(s[n..], unicodeWord)
    else
      assert s == [s[0]] + s[1..];
      [s[0]] + RemoveMentions(s[1..], unicodeWord)
  }

  predicate NotHash(c: char) {
    c != '#'
  }

  /** `re.sub(r"#", '', s)` */
  function RemoveHashes(s: string): (r: string)
    ensures '#' !in r
    ensures forall c | c != '#' :: multiset(r)[c] == multiset(s)[c]
    ensures IsSubsequence(r, s)
  {
    forall c | c != '#' ensures multiset(Filter(s, NotHash))[c] == multiset(s)[c] {
      FilterCounts(s, NotHash, c);
    }
    Filter(s, NotHash)
  }

  // ---------------------------------------------------------------------
  // Stage 2: emoji replacement
  // ---------------------------------------------------------------------

  /** Each emoji key, in table order, replaced everywhere by
      `" " + description + " "`. */
  function ReplaceEmojis(s: string, table: EmojiTable): string
    decreases |table|
  {
    if |table| == 0 then s
    else ReplaceEmojis(ReplaceAll(s, table[0].0, " " + table[0].1 + " "), table[1..])
  }

  /** `if emojis: ...` -- `None` and the empty dictionary are both falsy. */
  function EmojiStage(s: string, emojis: Option<EmojiTable>): (r: string)
    ensures emojis.None? || emojis.value == [] ==> r == s
  {
    if emojis.Some? && |emojis.value| > 0 then ReplaceEmojis(s, emojis.value) else s
  }

  // ---------------------------------------------------------------------
  // Stages 3 and 4: non-ASCII, case, punctuation
  // ---------------------------------------------------------------------

  /** `re.sub(r'[^\x00-\x7F]+', '', s)`: deletes each maximal run of
      non-ASCII characters. */
  function StripNonAscii(s: string): (r: string)
    ensures forall i | 0 <= i < |r| :: IsAscii(r[i])
    ensures IsSubsequence(r, s)
    decreases |s|
  {
    if |s| == 0 then ""
    else if NotAscii(s[0]) then
      var n := Span(s, NotAscii);
      SubsequenceOfSuffix(StripNonAscii(s[n..]), s, n);
      StripNonAscii(s[n..])
    else
      assert s == [s[0]] + s[1..];
      [s[0]] + StripNonAscii(s[1..])
  }

  /** Deleting maximal runs of non-ASCII characters is the same as keeping
      exactly the ASCII characters, in order. */
  lemma {:induction false} StripNonAsciiIsFilter(s: string)
    ensures StripNonAscii(s) == Filter(s, IsAscii)
    decreases |s|
  {
    if |s| > 0 {
      if NotAscii(s[0]) {
        var n := Span(s, NotAscii);
        assert s == s[..n] + s[n..];
        FilterAppend(s[..n], s[n..], IsAscii);
        FilterDropsAll(s[..n], IsAscii);
        StripNonAsciiIsFilter(s[n..]);
      } else {
        assert s == [s[0]] + s[1..];
        StripNonAsciiIsFilter(s[1..]);
      }
    }
  }

  /** `s.lower()` on text that is already ASCII. */
  function LowerAscii(s: string): (r: string)
    ensures |r| == |s|
    ensures forall i | 0 <= i < |r| :: !IsUpper(r[i])
    ensures forall i | 0 <= i < |r| :: IsAscii(s[i]) ==> IsAscii(r[i])
    ensures forall i | 0 <= i < |r| :: !IsUpper(s[i]) ==> r[i] == s[i]
    ensures forall i | 0 <= i < |r| :: IsUpper(s[i]) ==> r[i] as int == s[i] as int + 32
  {
    seq(|s|, i requires 0 <= i < |s| => ToLower(s[i]))
  }

  /** `s.translate(str.maketrans('', '', string.punctuation))` */
  function RemovePunctuation(s: string): (r: string)
    ensures forall i | 0 <= i < |r| :: r[i] !in Punctuation
    ensures IsSubsequence(r, s)
  {
    Filter(s, NotPunctuation)
  }

  /** Exactly the characters outside `string.punctuation` survive. */
  lemma RemovePunctuationKeepsOthers(s: string, c: char)
    ensures c in RemovePunctuation(s) <==> c in s && c !in Punctuation
  {
    FilterMembers(s, NotPunctuation, c);
  }

  /** Lines 23-37: the text handed to the tokeniser. Whatever the input,
      it is ASCII, has no upper-case letter and no punctuation. */
  function CleanText(tweet: string, emojis: Option<EmojiTable>, tools: TextTools): (r: string)
    ensures forall i | 0 <= i < |r| :: IsAscii(r[i]) && !IsUpper(r[i]) && r[i] !in Punctuation
  {
    var noUrls := RemoveUrls(tweet);
    var noMentions := RemoveMentions(noUrls, tools.unicodeWord);
    var noHashes := RemoveHashes(noMentions);
    var withEmojis := EmojiStage(noHashes, emojis);
    var ascii := StripNonAscii(withEmojis);
    var lower := LowerAscii(ascii);
    var clean := RemovePunctuation(lower);
    forall i | 0 <= i < |clean| ensures IsAscii(clean[i]) && !IsUpper(clean[i]) {
      SubsequenceMembers(clean, lower, clean[i]);
    }
    clean
  }

  // ---------------------------------------------------------------------
  // Stages 5-8: tokens
  // ---------------------------------------------------------------------

  /** `[w for w in tokens if w not in stopwords_list]` under
      `if stopwords_list:`. */
  function RemoveStopwords(tokens: seq<string>, stopwords: Option<seq<string>>): (r: seq<string>)
    ensures stopwords.None? || stopwords.value == [] ==> r == tokens
    ensures stopwords.Some? ==> forall i | 0 <= i < |r| :: r[i] !in stopwords.value
    ensures IsSubsequence(r, tokens)
  {
    if stopwords.Some? && |stopwords.value| > 0 then
      Filter(tokens, w => w !in stopwords.value)
    else
      SubsequenceReflexive(tokens);
      tokens
  }

  /** With a stopword list, exactly the tokens not in it survive. */
  lemma RemoveStopwordsKeepsOthers(tokens: seq<string>, stopwords: seq<string>, w: string)
    ensures w in RemoveStopwords(tokens, Some(stopwords)) <==> w in tokens && w !in stopwords
  {
    if |stopwords| > 0 {
      FilterMembers(tokens, w => w !in stopwords, w);
    }
  }

  /** The token function line 47 selects: the lemmatiser for `"lem"`,
      the stemmer for any other value. */
  function Morphology(stemOrLem: string, tools: TextTools): string -> string {
    if stemOrLem == "lem" then tools.lemmatize else tools.stem
  }

  /** Lines 47-50: a per-token map. */
  function ApplyMorphology(tokens: seq<string>, stemOrLem: string, tools: TextTools): (r: seq<string>)
    ensures |r| == |tokens|
    ensures stemOrLem == "lem" ==> forall i | 0 <= i < |r| :: r[i] == tools.lemmatize(tokens[i])
    ensures stemOrLem != "lem" ==> forall i | 0 <= i < |r| :: r[i] == tools.stem(tokens[i])
  {
    var f := Morphology(stemOrLem, tools);
    seq(|tokens|, i requires 0 <= i < |tokens| => f(tokens[i]))
  }

  /** The tokens that reach the lemmatiser or stemmer (lines 40-44). */
  function SurvivingTokens(tweet: string, emojis: Option<EmojiTable>, stopwords: Option<seq<string>>,
                           tools: TextTools): seq<string>
  {
    RemoveStopwords(Split(CleanText(tweet, emojis, tools)), stopwords)
  }

  /** Line 53 before the final `.strip()`: the mapped tokens joined by
      single spaces. */
  function JoinedTokens(tweet: string, stemOrLem: string, emojis: Option<EmojiTable>,
                        stopwords: Option<seq<string>>, tools: TextTools): string
  {
    Join(ApplyMorphology(SurvivingTokens(tweet, emojis, stopwords, tools), stemOrLem, tools), " ")
  }

  /** `preprocess_text(tweet, stem_or_lem, emojis, stopwords_list)` */
  function PreprocessText(tweet: string, stemOrLem: string, emojis: Option<EmojiTable>,
                          stopwords: Option<seq<string>>, tools: TextTools): (r: string)
    ensures |r| == 0 || (NotSpace(r[0]) && NotSpace(r[|r| - 1]))
  {
    Strip(JoinedTokens(tweet, stemOrLem, emojis, stopwords, tools))
  }

  // ---------------------------------------------------------------------
  // Properties
  // ---------------------------------------------------------------------

  /** The third alternative `https\S+` never matches where `http\S+` does
      not: "https" followed by non-whitespace is "http" followed by 's'. */
  lemma HttpsAlternativeSubsumed(s: string)
    requires HasPrefix(s, "https") && |s| > 5 && NotSpace(s[5])
    ensures HasPrefix(s, "http") && |s| > 4 && NotSpace(s[4])
  {
    assert s[..4] == s[..5][..4];
    assert s[4] == s[..5][4];
  }

  /** Text that starts with whitespace (or is empty) keeps no leading
      non-whitespace run through URL removal: no URL starts at whitespace. */
  lemma RemoveUrlsAtSpace(s: string)
    requires |s| == 0 || IsSpace(s[0])
    ensures Span(RemoveUrls(s), NotSpace) == 0
  {
    if |s| > 0 {
      assert !UrlAt(s) by {
        if UrlAt(s) {
          UrlAtStartsRun(s);
        }
      }
      assert RemoveUrls(s)[0] == s[0];
    }
  }

  /** Where a URL starts, its whole leading run is deleted: what follows
      starts with whitespace or is empty. */
  lemma RemoveUrlsAtUrl(t: string)
    requires UrlAt(t)
    ensures Span(RemoveUrls(t), NotSpace) == 0
  {
    UrlAtStartsRun(t);
    var n := Span(t, NotSpace);
    assert n == |t| || (t[n..][0] == t[n] && IsSpace(t[n]));
    RemoveUrlsAtSpace(t[n..]);
    assert RemoveUrls(t) == RemoveUrls(t[n..]);
  }

  /** Keeping the first character of `t` keeps, index by index, the
      agreement of the leading run with `t`. */
  lemma LeadingRunOfConsAt(t: string, r: string, i: int)
    requires |t| > 0
    requires forall j | 0 <= j < Span(r, NotSpace) :: j < |t[1..]| && r[j] == t[1..][j]
    requires 0 <= i < Span([t[0]] + r, NotSpace)
    ensures i < |t| && ([t[0]] + r)[i] == t[i]
  {
    var x := [t[0]] + r;
    if i > 0 {
      assert NotSpace(x[0]);
      assert Span(x, NotSpace) == 1 + Span(x[1..], NotSpace);
      assert x[1..] == r;
      assert x[i] == r[i - 1] == t[1..][i - 1];
    }
  }

  /** The leading non-whitespace run of `RemoveUrls(t)` is copied from the
      start of `t`: a deleted URL always ends at whitespace or at the end. */
  lemma {:induction false} RemoveUrlsKeepsLeadingRun(t: string)
    ensures forall i | 0 <= i < Span(RemoveUrls(t), NotSpace) :: i < |t| && RemoveUrls(t)[i] == t[i]
    decreases |t|
  {
    if |t| == 0 {
    } else if UrlAt(t) {
      RemoveUrlsAtUrl(t);
    } else {
      var r' := RemoveUrls(t[1..]);
      RemoveUrlsKeepsLeadingRun(t[1..]);
      assert RemoveUrls(t) == [t[0]] + r';
      forall i | 0 <= i < Span(RemoveUrls(t), NotSpace) ensures i < |t| && RemoveUrls(t)[i] == t[i] {
        LeadingRunOfConsAt(t, r', i);
      }
    }
  }

  /** The run condition of `UrlAtFromLeadingRun`: `r`'s leading
      non-whitespace run is copied from `t[1..]`. */
  predicate RunFromTail(t: string, r: string) {
    forall i | 0 <= i < Span(r, NotSpace) :: i + 1 < |t| && r[i] == t[i + 1]
  }

  /** The first `k` characters of `[t[0]] + r` are non-whitespace and
      copied from `t`, when `r`'s leading run is copied from `t[1..]`. */
  lemma PrefixFromLeadingRun(t: string, r: string, k: nat)
    requires |t| > 0 && RunFromTail(t, r)
    requires k < |[t[0]] + r| && forall i | 0 <= i <= k :: NotSpace(([t[0]] + r)[i])
    ensures k < |t| && t[..k] == ([t[0]] + r)[..k] && t[k] == ([t[0]] + r)[k]
  {
    var x := [t[0]] + r;
    var m := Span(r, NotSpace);
    forall i | 0 <= i < k ensures NotSpace(r[i]) {
      assert r[i] == x[i + 1];
    }
    assert m >= k;
    if k > 0 {
      assert k - 1 < m && r[k - 1] == x[k];
    }
    forall i | 0 <= i <= k ensures t[i] == x[i] {
      if i > 0 {
        assert x[i] == r[i - 1];
      }
    }
    assert t[..k] == x[..k];
  }

  /** If the pattern matches at `[t[0]] + r`, and `r`'s leading run comes
      from `t[1..]`, then it matches at `t` too. */
  lemma UrlAtFromLeadingRun(t: string, r: string)
    requires |t| > 0
    requires RunFromTail(t, r)
    requires UrlAt([t[0]] + r)
    ensures UrlAt(t)
  {
    var x := [t[0]] + r;
    if HasPrefix(x, "https") && |x| > 5 && NotSpace(x[5]) {
      HttpsAlternativeSubsumed(x);
    }
    if HasPrefix(x, "http") && |x| > 4 && NotSpace(x[4]) {
      assert x[..4] == "http";
      PrefixFromLeadingRun(t, r, 4);
    } else {
      assert x[..3] == "www";
      PrefixFromLeadingRun(t, r, 3);
    }
  }

  /** Where the pattern does not match at the start of the input, it does
      not match at the start of the output either. */
  lemma NoUrlAtFront(s: string)
    requires |s| > 0 && !UrlAt(s)
    ensures !UrlAt(RemoveUrls(s))
  {
    var r' := RemoveUrls(s[1..]);
    assert RemoveUrls(s) == [s[0]] + r';
    if UrlAt([s[0]] + r') {
      RemoveUrlsKeepsLeadingRun(s[1..]);
      forall i | 0 <= i < Span(r', NotSpace) ensures i + 1 < |s| && r'[i] == s[i + 1] {
        assert r'[i] == s[1..][i];
      }
      assert RunFromTail(s, r');
      UrlAtFromLeadingRun(s, r');
      assert false;
    }
  }

  /** After line 23 the URL pattern matches nowhere: no "http" or "www"
      followed by a non-whitespace character is left. (A bare "http"
      survives, since `\S+` needs at least one more character.) */
  lemma {:induction false} RemoveUrlsLeavesNoUrl(s: string)
    ensures forall j | 0 <= j <= |RemoveUrls(s)| :: !UrlAt(RemoveUrls(s)[j..])
    decreases |s|
  {
    var r := RemoveUrls(s);
    if |s| == 0 {
    } else if UrlAt(s) {
      UrlAtStartsRun(s);
      RemoveUrlsLeavesNoUrl(s[Span(s, NotSpace)..]);
    } else {
      var r' := RemoveUrls(s[1..]);
      RemoveUrlsLeavesNoUrl(s[1..]);
      assert r == [s[0]] + r';
      forall j | 0 <= j <= |r| ensures !UrlAt(r[j..]) {
        if j == 0 {
          NoUrlAtFront(s);
          assert r[0..] == r;
        } else {
          assert r[j..] == r'[j - 1..];
        }
      }
    }
  }

  /** Text in which the pattern matches nowhere passes line 23 unchanged. */
  lemma {:induction false} RemoveUrlsNoMatch(s: string)
    requires forall j | 0 <= j <= |s| :: !UrlAt(s[j..])
    ensures RemoveUrls(s) == s
    decreases |s|
  {
    if |s| > 0 {
      assert s[0..] == s;
      forall j | 0 <= j <= |s[1..]| ensures !UrlAt(s[1..][j..]) {
        assert s[1..][j..] == s[j + 1..];
      }
      RemoveUrlsNoMatch(s[1..]);
      assert s == [s[0]] + s[1..];
    }
  }

  /** One step of line 23 where no URL starts: the first character is
      copied. */
  lemma RemoveUrlsCopiesHead(s: string)
    requires |s| > 0 && !UrlAt(s)
    ensures RemoveUrls(s) == [s[0]] + RemoveUrls(s[1..])
  {
  }

  lemma ClearOfUrlsShift(s: string, i: nat)
    requires 0 < i <= |s|
    requires forall j | 0 <= j < i :: !UrlAt(s[j..])
    ensures !UrlAt(s)
    ensures forall j | 0 <= j < i - 1 :: !UrlAt(s[1..][j..])
  {
    assert s[0..] == s;
    forall j | 0 <= j < i - 1 ensures !UrlAt(s[1..][j..]) {
      assert s[1..][j..] == s[j + 1..];
    }
  }

  /** A prefix at none of whose positions a URL starts is copied
      unchanged. */
  lemma {:induction false} RemoveUrlsKeepsClearPrefix(s: string, i: nat)
    requires i <= |s|
    requires forall j | 0 <= j < i :: !UrlAt(s[j..])
    ensures RemoveUrls(s) == s[..i] + RemoveUrls(s[i..])
    decreases i
  {
    if i == 0 {
      assert s[0..] == s && s[..0] == [];
    } else {
      ClearOfUrlsShift(s, i);
      RemoveUrlsCopiesHead(s);
      RemoveUrlsKeepsClearPrefix(s[1..], i - 1);
      ConsSlices(s, i);
      AppendAssoc([s[0]], s[1..][..i - 1], RemoveUrls(s[i..]));
    }
  }

  /** The leftmost match: everything before it is kept, the match runs to
      the end of its non-whitespace run and is deleted, and scanning
      resumes right after it. With `RemoveUrlsNoMatch` this fixes the
      result of line 23 for every input. */
  lemma RemoveUrlsFirstMatch(s: string, i: nat)
    requires i < |s|
    requires forall j | 0 <= j < i :: !UrlAt(s[j..])
    requires UrlAt(s[i..])
    ensures RemoveUrls(s) == s[..i] + RemoveUrls(s[i + Span(s[i..], NotSpace)..])
  {
    RemoveUrlsKeepsClearPrefix(s, i);
    assert s[i..][Span(s[i..], NotSpace)..] == s[i + Span(s[i..], NotSpace)..];
  }

  /** The pattern as read off a leading non-whitespace run `w`: `http` or
      `www` with at least one more character of the run after it. */
  predicate UrlRun(w: string) {
    (HasPrefix(w, "http") && |w| > 4) || (HasPrefix(w, "www") && |w| > 3)
  }

  /** Whether the pattern matches at the start of `s` depends only on the
      leading non-whitespace run of `s`. */
  lemma UrlAtByRun(s: string)
    ensures UrlAt(s) <==> UrlRun(s[..Span(s, NotSpace)])
  {
    var n := Span(s, NotSpace);
    var w := s[..n];
    if UrlAt(s) {
      if HasPrefix(s, "https") && |s| > 5 && NotSpace(s[5]) {
        HttpsAlternativeSubsumed(s);
      }
      if HasPrefix(s, "http") && |s| > 4 && NotSpace(s[4]) {
        forall i | 0 <= i < 4 ensures NotSpace(s[i]) {
          assert s[i] == s[..4][i];
        }
        SpanAtLeast(s, NotSpace, 5);
        assert w[..4] == s[..4];
      } else {
        forall i | 0 <= i < 3 ensures NotSpace(s[i]) {
          assert s[i] == s[..3][i];
        }
        SpanAtLeast(s, NotSpace, 4);
        assert w[..3] == s[..3];
      }
    }
    if UrlRun(w) {
      if HasPrefix(w, "http") && |w| > 4 {
        assert s[..4] == w[..4];
        assert s[4] == w[4];
      } else {
        assert s[..3] == w[..3];
        assert s[3] == w[3];
      }
    }
  }

  /** Texts with the same leading non-whitespace run agree on whether a
      URL starts them. */
  lemma UrlAtSameRun(a: string, b: string)
    requires a[..Span(a, NotSpace)] == b[..Span(b, NotSpace)]
    ensures UrlAt(a) <==> UrlAt(b)
  {
    UrlAtByRun(a);
    UrlAtByRun(b);
  }

  /** When `p` contains whitespace after its leading run, the pattern
      matches at the start of `p + q` exactly when it matches at `p`. */
  lemma UrlAtAppend(p: string, q: string)
    requires Span(p, NotSpace) < |p|
    ensures UrlAt(p + q) <==> UrlAt(p)
  {
    var n := Span(p, NotSpace);
    SpanAppend(p, q, NotSpace);
    assert (p + q)[..n] == p[..n];
    UrlAtSameRun(p, p + q);
  }

  /** One step of `RemoveUrlsAppend` where a URL starts `p`: the URL ends
      inside `p`, so it is deleted from `p + q` and from `p` alike. */
  lemma RemoveUrlsAppendAtUrl(p: string, q: string)
    requires |p| > 0 && IsSpace(p[|p| - 1]) && UrlAt(p)
    ensures 0 < Span(p, NotSpace) < |p|
    ensures IsSpace(p[Span(p, NotSpace)..][|p| - Span(p, NotSpace) - 1])
    ensures RemoveUrls(p + q) == RemoveUrls(p[Span(p, NotSpace)..] + q)
    ensures RemoveUrls(p) == RemoveUrls(p[Span(p, NotSpace)..])
  {
    var n := Span(p, NotSpace);
    assert !NotSpace(p[|p| - 1]);
    UrlAtStartsRun(p);
    UrlAtAppend(p, q);
    SpanAppend(p, q, NotSpace);
    assert (p + q)[n..] == p[n..] + q;
    assert p[n..][|p| - n - 1] == p[|p| - 1];
  }

  /** One step of `RemoveUrlsAppend` where no URL starts `p`: the first
      character is copied from `p + q` and from `p` alike. */
  lemma RemoveUrlsAppendPlain(p: string, q: string)
    requires |p| > 0 && IsSpace(p[|p| - 1]) && !UrlAt(p)
    ensures |p[1..]| == 0 || IsSpace(p[1..][|p| - 2])
    ensures RemoveUrls(p + q) == [p[0]] + RemoveUrls(p[1..] + q)
    ensures RemoveUrls(p) == [p[0]] + RemoveUrls(p[1..])
  {
    assert !NotSpace(p[|p| - 1]);
    UrlAtAppend(p, q);
    assert (p + q)[1..] == p[1..] + q;
    assert (p + q)[0] == p[0];
    assert |p[1..]| == 0 || p[1..][|p| - 2] == p[|p| - 1];
  }

  /** Text that ends in whitespace is cleaned independently of what
      follows: no URL reaches across whitespace, so line 23 keeps every
      character outside the deleted runs. */
  lemma {:induction false} RemoveUrlsAppend(p: string, q: string)
    requires |p| == 0 || IsSpace(p[|p| - 1])
    ensures RemoveUrls(p + q) == RemoveUrls(p) + RemoveUrls(q)
    decreases |p|, 1
  {
    if |p| == 0 {
      assert p + q == q;
    } else if UrlAt(p) {
      RemoveUrlsAppendUrlCase(p, q);
    } else {
      RemoveUrlsAppendPlainCase(p, q);
    }
  }

  lemma {:induction false} RemoveUrlsAppendUrlCase(p: string, q: string)
    requires |p| > 0 && IsSpace(p[|p| - 1]) && UrlAt(p)
    ensures RemoveUrls(p + q) == RemoveUrls(p) + RemoveUrls(q)
    decreases |p|, 0
  {
    RemoveUrlsAppendAtUrl(p, q);
    RemoveUrlsAppend(p[Span(p, NotSpace)..], q);
  }

  lemma {:induction false} RemoveUrlsAppendPlainCase(p: string, q: string)
    requires |p| > 0 && IsSpace(p[|p| - 1]) && !UrlAt(p)
    ensures RemoveUrls(p + q) == RemoveUrls(p) + RemoveUrls(q)
    decreases |p|, 0
  {
    RemoveUrlsAppendPlain(p, q);
    RemoveUrlsAppend(p[1..], q);
    AppendAssoc([p[0]], RemoveUrls(p[1..]), RemoveUrls(q));
  }

  /** Text that does not start a URL keeps its first character. */
  lemma RemoveUrlsNotUrlStart(c: char, t: string)
    requires !UrlAt([c] + t)
    ensures RemoveUrls([c] + t) == [c] + RemoveUrls(t)
  {
    assert ([c] + t)[1..] == t;
  }

  /** A character that cannot start a URL is copied. */
  lemma RemoveUrlsPlainStart(c: char, t: string)
    requires c != 'h' && c != 'w'
    ensures RemoveUrls([c] + t) == [c] + RemoveUrls(t)
  {
    assert !UrlAt([c] + t) by {
      if UrlAt([c] + t) {
        UrlAtStartsRun([c] + t);
      }
    }
    RemoveUrlsNotUrlStart(c, t);
  }

  /** `http` followed by whitespace or the end is not a URL: `\S+` needs
      one more non-whitespace character. */
  lemma HttpNotUrl(q: string)
    requires |q| == 0 || IsSpace(q[0])
    ensures !UrlAt("http" + q)
  {
    var s := "http" + q;
    forall i | 0 <= i < 4 ensures NotSpace(s[i]) {
      assert s[i] == "http"[i];
    }
    SpanAtLeast(s, NotSpace, 4);
    assert |s| == 4 || s[4] == q[0];
    assert s[..Span(s, NotSpace)] == "http";
    UrlAtByRun(s);
  }

  /** The word `http` in front of a text, one character at a time. */
  lemma HttpCons(q: string)
    ensures "http" + q == ['h'] + (['t'] + (['t'] + (['p'] + q)))
  {
  }

  /** So line 23 keeps such an `http` and cleans what follows it. */
  lemma HttpBeforeSpace(q: string)
    requires |q| == 0 || IsSpace(q[0])
    ensures RemoveUrls("http" + q) == "http" + RemoveUrls(q)
  {
    HttpCons(q);
    HttpCons(RemoveUrls(q));
    HttpNotUrl(q);
    RemoveUrlsNotUrlStart('h', ['t'] + (['t'] + (['p'] + q)));
    RemoveUrlsPlainStart('t', ['t'] + (['p'] + q));
    RemoveUrlsPlainStart('t', ['p'] + q);
    RemoveUrlsPlainStart('p', q);
  }

  /** A bare word `http`, between whitespace or the ends of the text, is
      not removed: `\S+` needs at least one more character. Everything
      around it is cleaned as if it were not there. */
  lemma BareHttpSurvives(p: string, q: string)
    requires |p| == 0 || IsSpace(p[|p| - 1])
    requires |q| == 0 || IsSpace(q[0])
    ensures RemoveUrls(p + "http" + q) == RemoveUrls(p) + "http" + RemoveUrls(q)
  {
    HttpBeforeSpace(q);
    RemoveUrlsAppend(p, "http" + q);
    AppendAssoc(p, "http", q);
    AppendAssoc(RemoveUrls(p), "http", RemoveUrls(q));
  }

  /** What follows a deleted mention is a non-word character or nothing, so
      `RemoveMentions` never starts with a word character unless its input
      did. */
  lemma {:induction false} RemoveMentionsKeepsNonWordStart(t: string, unicodeWord: char -> bool)
    requires |t| == 0 || !IsWord(unicodeWord, t[0])
    ensures |RemoveMentions(t, unicodeWord)| == 0 || !IsWord(unicodeWord, RemoveMentions(t, unicodeWord)[0])
    decreases |t|
  {
    if |t| > 0 && MentionAt(t, unicodeWord) {
      RemoveMentionsKeepsNonWordStart(t[MentionEnd(t, unicodeWord)..], unicodeWord);
    }
  }


  /** After line 24 no `@` is followed by a word character. */
  lemma {:induction false} RemoveMentionsLeavesNoMention(s: string, unicodeWord: char -> bool)
    ensures forall j | 0 <= j <= |RemoveMentions(s, unicodeWord)| ::
      !MentionAt(RemoveMentions(s, unicodeWord)[j..], unicodeWord)
    decreases |s|
  {
    var r := RemoveMentions(s, unicodeWord);
    if |s| == 0 {
    } else if MentionAt(s, unicodeWord) {
      RemoveMentionsLeavesNoMention(s[MentionEnd(s, unicodeWord)..], unicodeWord);
    } else {
      var r' := RemoveMentions(s[1..], unicodeWord);
      RemoveMentionsLeavesNoMention(s[1..], unicodeWord);
      assert r == [s[0]] + r';
      forall j | 0 <= j <= |r| ensures !MentionAt(r[j..], unicodeWord) {
        if j == 0 {
          if s[0] == '@' {
            RemoveMentionsKeepsNonWordStart(s[1..], unicodeWord);
            assert r[1..] == r';
          }
        } else {
          assert r[j..] == r'[j - 1..];
        }
      }
    }
  }

  /** Text in which `@\w+` matches nowhere passes line 24 unchanged. */
  lemma {:induction false} RemoveMentionsNoMatch(s: string, unicodeWord: char -> bool)
    requires forall j | 0 <= j <= |s| :: !MentionAt(s[j..], unicodeWord)
    ensures RemoveMentions(s, unicodeWord) == s
    decreases |s|
  {
    if |s| > 0 {
      assert s[0..] == s;
      forall j | 0 <= j <= |s[1..]| ensures !MentionAt(s[1..][j..], unicodeWord) {
        assert s[1..][j..] == s[j + 1..];
      }
      RemoveMentionsNoMatch(s[1..], unicodeWord);
      assert s == [s[0]] + s[1..];
    }
  }

  /** One step of line 24 where no mention starts: the first character is
      copied. */
  lemma RemoveMentionsCopiesHead(s: string, unicodeWord: char -> bool)
    requires |s| > 0 && !MentionAt(s, unicodeWord)
    ensures RemoveMentions(s, unicodeWord) == [s[0]] + RemoveMentions(s[1..], unicodeWord)
  {
  }

  lemma ClearOfMentionsShift(s: string, i: nat, unicodeWord: char -> bool)
    requires 0 < i <= |s|
    requires forall j | 0 <= j < i :: !MentionAt(s[j..], unicodeWord)
    ensures !MentionAt(s, unicodeWord)
    ensures forall j | 0 <= j < i - 1 :: !MentionAt(s[1..][j..], unicodeWord)
  {
    assert s[0..] == s;
    forall j | 0 <= j < i - 1 ensures !MentionAt(s[1..][j..], unicodeWord) {
      assert s[1..][j..] == s[j + 1..];
    }
  }

  /** A prefix at none of whose positions a mention starts is copied
      unchanged. */
  lemma {:induction false} RemoveMentionsKeepsClearPrefix(s: string, i: nat, unicodeWord: char -> bool)
    requires i <= |s|
    requires forall j | 0 <= j < i :: !MentionAt(s[j..], unicodeWord)
    ensures RemoveMentions(s, unicodeWord) == s[..i] + RemoveMentions(s[i..], unicodeWord)
    decreases i
  {
    if i == 0 {
      assert s[0..] == s && s[..0] == [];
    } else {
      ClearOfMentionsShift(s, i, unicodeWord);
      RemoveMentionsCopiesHead(s, unicodeWord);
      RemoveMentionsKeepsClearPrefix(s[1..], i - 1, unicodeWord);
      ConsSlices(s, i);
      AppendAssoc([s[0]], s[1..][..i - 1], RemoveMentions(s[i..], unicodeWord));
    }
  }

  /** The leftmost mention: everything before it is kept, `@` and its
      maximal run of word characters are deleted, and scanning resumes
      right after them. With `RemoveMentionsNoMatch` this fixes the result
      of line 24 for every input. */
  lemma RemoveMentionsFirstMatch(s: string, i: nat, unicodeWord: char -> bool)
    requires i < |s|
    requires forall j | 0 <= j < i :: !MentionAt(s[j..], unicodeWord)
    requires MentionAt(s[i..], unicodeWord)
    ensures MentionEnd(s[i..], unicodeWord) <= |s| - i
    ensures RemoveMentions(s, unicodeWord) == s[..i] + RemoveMentions(s[i + MentionEnd(s[i..], unicodeWord)..], unicodeWord)
  {
    RemoveMentionsKeepsClearPrefix(s, i, unicodeWord);
    var t := s[i..];
    assert t[MentionEnd(t, unicodeWord)..] == s[i + MentionEnd(t, unicodeWord)..];
  }

  /** A character no mention can run across: it neither continues `\w+`
      nor starts `@`. */
  predicate MentionBoundary(c: char, unicodeWord: char -> bool) {
    !IsWord(unicodeWord, c) && c != '@'
  }

  /** One step of `RemoveMentionsAppend` where a mention starts `p`: the
      mention ends inside `p`, so it is deleted from `p + q` and from `p`
      alike. */
  lemma RemoveMentionsAppendAtMention(p: string, q: string, unicodeWord: char -> bool)
    requires |p| > 0 && MentionBoundary(p[|p| - 1], unicodeWord) && MentionAt(p, unicodeWord)
    ensures MentionEnd(p, unicodeWord) < |p|
    ensures MentionBoundary(p[MentionEnd(p, unicodeWord)..][|p| - 1 - MentionEnd(p, unicodeWord)], unicodeWord)
    ensures RemoveMentions(p + q, unicodeWord) == RemoveMentions(p[MentionEnd(p, unicodeWord)..] + q, unicodeWord)
    ensures RemoveMentions(p, unicodeWord) == RemoveMentions(p[MentionEnd(p, unicodeWord)..], unicodeWord)
  {
    var k := Span(p[1..], Word(unicodeWord));
    var n := MentionEnd(p, unicodeWord);
    assert p[1..][|p| - 2] == p[|p| - 1];
    assert !Word(unicodeWord)(p[|p| - 1]);
    assert k < |p| - 1;
    SpanAppend(p[1..], q, Word(unicodeWord));
    assert (p + q)[1..] == p[1..] + q;
    assert (p + q)[0] == p[0] && (p + q)[1] == p[1];
    assert (p + q)[n..] == p[n..] + q;
    assert p[n..][|p| - n - 1] == p[|p| - 1];
  }

  /** One step of `RemoveMentionsAppend` where no mention starts `p`: the
      first character is copied from `p + q` and from `p` alike. */
  lemma RemoveMentionsAppendPlain(p: string, q: string, unicodeWord: char -> bool)
    requires |p| > 0 && MentionBoundary(p[|p| - 1], unicodeWord) && !MentionAt(p, unicodeWord)
    ensures |p[1..]| == 0 || MentionBoundary(p[1..][|p| - 2], unicodeWord)
    ensures RemoveMentions(p + q, unicodeWord) == [p[0]] + RemoveMentions(p[1..] + q, unicodeWord)
    ensures RemoveMentions(p, unicodeWord) == [p[0]] + RemoveMentions(p[1..], unicodeWord)
  {
    assert (p + q)[0] == p[0];
    assert |p| == 1 || (p + q)[1] == p[1];
    assert (p + q)[1..] == p[1..] + q;
    assert |p[1..]| == 0 || p[1..][|p| - 2] == p[|p| - 1];
  }

  /** Text that ends in a mention boundary is cleaned independently of
      what follows: line 24 keeps every character outside the deleted
      mentions. */
  lemma {:induction false} RemoveMentionsAppend(p: string, q: string, unicodeWord: char -> bool)
    requires |p| == 0 || MentionBoundary(p[|p| - 1], unicodeWord)
    ensures RemoveMentions(p + q, unicodeWord) == RemoveMentions(p, unicodeWord) + RemoveMentions(q, unicodeWord)
    decreases |p|, 1
  {
    if |p| == 0 {
      assert p + q == q;
    } else if MentionAt(p, unicodeWord) {
      RemoveMentionsAppendMentionCase(p, q, unicodeWord);
    } else {
      RemoveMentionsAppendPlainCase(p, q, unicodeWord);
    }
  }

  lemma {:induction false} RemoveMentionsAppendMentionCase(p: string, q: string, unicodeWord: char -> bool)
    requires |p| > 0 && MentionBoundary(p[|p| - 1], unicodeWord) && MentionAt(p, unicodeWord)
    ensures RemoveMentions(p + q, unicodeWord) == RemoveMentions(p, unicodeWord) + RemoveMentions(q, unicodeWord)
    decreases |p|, 0
  {
    RemoveMentionsAppendAtMention(p, q, unicodeWord);
    RemoveMentionsAppend(p[MentionEnd(p, unicodeWord)..], q, unicodeWord);
  }

  lemma {:induction false} RemoveMentionsAppendPlainCase(p: string, q: string, unicodeWord: char -> bool)
    requires |p| > 0 && MentionBoundary(p[|p| - 1], unicodeWord) && !MentionAt(p, unicodeWord)
    ensures RemoveMentions(p + q, unicodeWord) == RemoveMentions(p, unicodeWord) + RemoveMentions(q, unicodeWord)
    decreases |p|, 0
  {
    RemoveMentionsAppendPlain(p, q, unicodeWord);
    RemoveMentionsAppend(p[1..], q, unicodeWord);
    AppendAssoc([p[0]], RemoveMentions(p[1..], unicodeWord), RemoveMentions(q, unicodeWord));
  }

  /** Keys are processed in dictionary order: adding an entry at the end of
      the table applies its replacement last. */
  lemma {:induction false} ReplaceEmojisInOrder(s: string, table: EmojiTable, emoji: string, description: string)
    ensures ReplaceEmojis(s, table + [(emoji, description)])
         == ReplaceAll(ReplaceEmojis(s, table), emoji, " " + description + " ")
    decreases |table|
  {
    if |table| == 0 {
      assert table + [(emoji, description)] == [(emoji, description)];
    } else {
      assert (table + [(emoji, description)])[1..] == table[1..] + [(emoji, description)];
      ReplaceEmojisInOrder(ReplaceAll(s, table[0].0, " " + table[0].1 + " "), table[1..], emoji, description);
    }
  }

  /** A token fit for the lemmatiser: non-empty, no whitespace, ASCII only,
      no upper-case letter and no `string.punctuation` character (so no
      `@` and no `#`). */
  predicate IsCleanToken(w: string) {
    IsToken(w) && forall c | c in w :: IsAscii(c) && !IsUpper(c) && c !in Punctuation
  }

  /** Every token that reaches the lemmatiser or stemmer is clean; in
      particular every emoji the dictionary did not name is gone. */
  lemma SurvivingTokensAreClean(tweet: string, emojis: Option<EmojiTable>, stopwords: Option<seq<string>>,
                                tools: TextTools)
    ensures forall w | w in SurvivingTokens(tweet, emojis, stopwords, tools) :: IsCleanToken(w)
  {
    var text := CleanText(tweet, emojis, tools);
    var tokens := Split(text);
    forall w | w in SurvivingTokens(tweet, emojis, stopwords, tools) ensures IsCleanToken(w) {
      SubsequenceMembers(SurvivingTokens(tweet, emojis, stopwords, tools), tokens, w);
      var i :| 0 <= i < |tokens| && tokens[i] == w;
      forall c | c in w ensures IsAscii(c) && !IsUpper(c) && c !in Punctuation {
        var j :| 0 <= j < |w| && w[j] == c;
        InConcat(tokens, i, j);
        FilterMembers(text, NotSpace, c);
      }
    }
  }

  /** The lemmatiser or stemmer turns a token into a token. */
  ghost predicate PreservesTokens(f: string -> string) {
    forall w :: IsToken(w) ==> IsToken(f(w))
  }

  /** Line 53: when the token function keeps tokens as tokens, the result is
      the mapped tokens joined by single spaces -- no leading, trailing or
      doubled space -- and splitting it gives the mapped tokens back. */
  lemma PreprocessJoinsTokens(tweet: string, stemOrLem: string, emojis: Option<EmojiTable>,
                              stopwords: Option<seq<string>>, tools: TextTools)
    requires PreservesTokens(Morphology(stemOrLem, tools))
    ensures var mapped := ApplyMorphology(SurvivingTokens(tweet, emojis, stopwords, tools), stemOrLem, tools);
      && PreprocessText(tweet, stemOrLem, emojis, stopwords, tools) == Join(mapped, " ")
      && SingleSpaced(PreprocessText(tweet, stemOrLem, emojis, stopwords, tools))
      && Split(PreprocessText(tweet, stemOrLem, emojis, stopwords, tools)) == mapped
  {
    var tokens := SurvivingTokens(tweet, emojis, stopwords, tools);
    var mapped := ApplyMorphology(tokens, stemOrLem, tools);
    SurvivingTokensAreClean(tweet, emojis, stopwords, tools);
    forall i | 0 <= i < |mapped| ensures IsToken(mapped[i]) {
      assert tokens[i] in tokens;
      assert mapped[i] == Morphology(stemOrLem, tools)(tokens[i]);
    }
    JoinTokensSingleSpaced(mapped);
    StripSingleSpaced(Join(mapped, " "));
    SplitJoin(mapped);
  }
}
