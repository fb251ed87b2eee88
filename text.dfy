/**
 * The pieces of Python's `str` that the bot's text handling relies on
 * (`lower()`, `split()`, `" ".join`, the regex classes `\w` and `\s`),
 * and the moderation word helpers of app/utils/text.py.
 */
module Text {

  // ---------------------------------------------------------------------
  // Characters
  // ---------------------------------------------------------------------

  /** `str.isspace()`, which is also what `\s` and `str.split()` treat as whitespace. */
  predicate IsSpace(c: char) {
    || c == ' ' || c == '\t' || c == '\n' || c == '\r'
    || c == '\U{000b}' || c == '\U{000c}'
    || ('\U{001c}' <= c <= '\U{001f}')
    || c == '\U{0085}' || c == '\U{00a0}' || c == '\U{1680}'
    || ('\U{2000}' <= c <= '\U{200a}')
    || c == '\U{2028}' || c == '\U{2029}' || c == '\U{202f}' || c == '\U{205f}' || c == '\U{3000}'
  }

  /** The regex class `\w` on the scripts the chat uses: ASCII letters, digits and
      the underscore, the Latin-1 letters and the Cyrillic letters. */
  predicate IsWordChar(c: char) {
    || ('a' <= c <= 'z') || ('A' <= c <= 'Z') || ('0' <= c <= '9') || c == '_'
    || ('\U{00c0}' <= c <= '\U{00d6}') || ('\U{00d8}' <= c <= '\U{00f6}') || ('\U{00f8}' <= c <= '\U{00ff}')
    || ('\U{0400}' <= c <= '\U{0481}') || ('\U{048a}' <= c <= '\U{04ff}')
  }

  /** `str.lower()` on one character: ASCII, Latin-1 and basic Cyrillic capitals. */
  function Lower(c: char): char {
    if 'A' <= c <= 'Z' then (c as int + 32) as char
    else if ('\U{00c0}' <= c <= '\U{00d6}') || ('\U{00d8}' <= c <= '\U{00de}') then (c as int + 32) as char
    else if '\U{0410}' <= c <= '\U{042f}' then (c as int + 32) as char
    else if '\U{0400}' <= c <= '\U{040f}' then (c as int + 80) as char
    else c
  }

  /** Lowering is idempotent and keeps a character's class. */
  lemma LowerFacts(c: char)
    ensures Lower(Lower(c)) == Lower(c)
    ensures IsWordChar(Lower(c)) == IsWordChar(c)
    ensures IsSpace(Lower(c)) == IsSpace(c)
  {
  }

  /** `str.lower()`. */
  function LowerStr(s: string): string {
    seq(|s|, i requires 0 <= i < |s| => Lower(s[i]))
  }

  /** True when every character of `s` is already lower case. */
  predicate IsLowered(s: string) {
    forall i :: 0 <= i < |s| ==> Lower(s[i]) == s[i]
  }

  lemma LowerStrIsLowered(s: string)
    ensures IsLowered(LowerStr(s))
  {
    forall i | 0 <= i < |s| ensures Lower(LowerStr(s)[i]) == LowerStr(s)[i] {
      LowerFacts(s[i]);
    }
  }

  lemma LowerStrOfLowered(s: string)
    requires IsLowered(s)
    ensures LowerStr(s) == s
  {
  }

  lemma LowerStrConcat(a: string, b: string)
    ensures LowerStr(a + b) == LowerStr(a) + LowerStr(b)
  {
  }

  // ---------------------------------------------------------------------
  // str.split() and " ".join
  // ---------------------------------------------------------------------

  /** True when no character of `w` is whitespace. */
  predicate NoSpace(w: string) {
    forall i :: 0 <= i < |w| ==> !IsSpace(w[i])
  }

  /** `s` without its leading whitespace. */
  function DropSpaces(s: string): string {
    if s == [] || !IsSpace(s[0]) then s else DropSpaces(s[1..])
  }

  /** Dropping leading whitespace leaves a suffix that is empty or starts with a non-space. */
  lemma {:induction false} DropSpacesFacts(s: string)
    ensures |DropSpaces(s)| <= |s| && DropSpaces(s) == s[|s| - |DropSpaces(s)|..]
    ensures DropSpaces(s) == [] || !IsSpace(DropSpaces(s)[0])
  {
    if s != [] && IsSpace(s[0]) {
      DropSpacesFacts(s[1..]);
    }
  }

  /** The length of the leading run of non-whitespace characters of `s`. */
  function WordLen(s: string): nat {
    if s == [] || IsSpace(s[0]) then 0 else 1 + WordLen(s[1..])
  }

  /** The leading run holds no whitespace and stops at whitespace or at the end. */
  lemma {:induction false} WordLenFacts(s: string)
    ensures WordLen(s) <= |s| && NoSpace(s[..WordLen(s)])
    ensures WordLen(s) < |s| ==> IsSpace(s[WordLen(s)])
  {
    if s != [] && !IsSpace(s[0]) {
      WordLenFacts(s[1..]);
      assert s[..WordLen(s)] == [s[0]] + s[1..][..WordLen(s[1..])];
    }
  }

  /** True when `words` could be the result of a split: non-empty words without whitespace. */
  predicate AreWords(words: seq<string>) {
    forall w :: w in words ==> w != [] && NoSpace(w)
  }

  /** `str.split()` with no argument: the maximal runs of non-whitespace characters, in order. */
  function Split(s: string): seq<string>
    decreases |s|
  {
    var t := DropSpaces(s);
    DropSpacesFacts(s);
    if t == [] then []
    else
      var n := WordLen(t);
      WordLenFacts(t);
      [t[..n]] + Split(t[n..])
  }

  /** Every word of a split is non-empty and free of whitespace. */
  lemma {:induction false} SplitAreWords(s: string)
    ensures AreWords(Split(s))
    decreases |s|
  {
    var t := DropSpaces(s);
    DropSpacesFacts(s);
    if t != [] {
      var n := WordLen(t);
      WordLenFacts(t);
      SplitAreWords(t[n..]);
      assert Split(s) == [t[..n]] + Split(t[n..]);
      forall w | w in Split(s) ensures w != [] && NoSpace(w) {
        if w != t[..n] {
          assert w in Split(t[n..]);
        }
      }
    }
  }

  /** Every character of a word of `s` is a character of `s`. */
  lemma {:induction false} SplitChars(s: string)
    ensures forall w, c :: w in Split(s) && c in w ==> c in s
    decreases |s|
  {
    var t := DropSpaces(s);
    DropSpacesFacts(s);
    if t != [] {
      var n := WordLen(t);
      WordLenFacts(t);
      SplitChars(t[n..]);
      assert Split(s) == [t[..n]] + Split(t[n..]);
      forall w, c | w in Split(s) && c in w ensures c in s {
        if w == t[..n] {
          assert c in t;
        } else {
          assert c in t[n..];
          assert c in t;
        }
      }
    }
  }

  /** `" ".join(words)`. */
  function Join(words: seq<string>): string {
    if |words| == 0 then ""
    else if |words| == 1 then words[0]
    else words[0] + " " + Join(words[1..])
  }

  lemma {:induction false} WordLenConcat(a: string, b: string)
    ensures WordLen(a + b) == if WordLen(a) < |a| then WordLen(a) else |a| + WordLen(b)
  {
    if a == [] {
      assert a + b == b;
    } else if !IsSpace(a[0]) {
      assert (a + b)[1..] == a[1..] + b;
      WordLenConcat(a[1..], b);
    }
  }

  /** Leading whitespace is skipped. */
  lemma SplitSkipsSpace(s: string)
    requires s != [] && IsSpace(s[0])
    ensures Split(s) == Split(s[1..])
  {
    assert DropSpaces(s) == DropSpaces(s[1..]);
  }

  /** A string starting with a non-whitespace character starts with its first word. */
  lemma SplitFirstWord(s: string)
    requires s != [] && !IsSpace(s[0])
    ensures 0 < WordLen(s) <= |s|
    ensures Split(s) == [s[..WordLen(s)]] + Split(s[WordLen(s)..])
  {
    WordLenFacts(s);
    assert DropSpaces(s) == s;
  }

  /** A whitespace character separates: the words of `a + [sp] + b` are those of `a` then those of `b`. */
  lemma {:induction false} SplitSpaceConcat(a: string, sp: char, b: string)
    requires IsSpace(sp)
    ensures Split(a + [sp] + b) == Split(a) + Split(b)
    decreases |a|
  {
    var s := a + [sp] + b;
    if a == [] {
      assert s == [sp] + b;
      assert s[1..] == b;
      SplitSkipsSpace(s);
      assert Split(a) == [];
    } else if IsSpace(a[0]) {
      assert Split(s) == Split(a) + Split(b) by {
        assert s[1..] == a[1..] + [sp] + b;
        SplitSkipsSpace(s);
        SplitSkipsSpace(a);
        SplitSpaceConcat(a[1..], sp, b);
      }
    } else {
      var n := WordLen(a);
      WordLenFacts(a);
      assert Split(s) == Split(a) + Split(b) by {
        FirstWordSurvivesConcat(a, sp, b);
        SplitFirstWord(a);
        SplitSpaceConcat(a[n..], sp, b);
        AppendAssoc([a[..n]], Split(a[n..]), Split(b));
      }
    }
  }

  lemma AppendAssoc<T>(x: seq<T>, y: seq<T>, z: seq<T>)
    ensures x + (y + z) == (x + y) + z
  {
  }

  /** The first word of `a` stays the first word once a separator and more text follow. */
  lemma FirstWordSurvivesConcat(a: string, sp: char, b: string)
    requires IsSpace(sp) && a != [] && !IsSpace(a[0])
    ensures 0 < WordLen(a) <= |a|
    ensures Split(a + [sp] + b) == [a[..WordLen(a)]] + Split(a[WordLen(a)..] + [sp] + b)
  {
    var s := a + [sp] + b;
    var n := WordLen(a);
    WordLenFacts(a);
    WordLenConcat(a, [sp] + b);
    assert s == a + ([sp] + b);
    assert WordLen(s) == n;
    SplitFirstWord(s);
    assert s[..n] == a[..n];
    assert s[n..] == a[n..] + [sp] + b;
  }

  /** Splitting a single word gives back that word. */
  lemma SplitWord(w: string)
    requires w != [] && NoSpace(w)
    ensures Split(w) == [w]
  {
    WordLenFacts(w);
    assert w[|w|..] == [];
    assert w[..|w|] == w;
  }

  /** Round trip: splitting a joined list of words gives the list back. */
  lemma {:induction false} SplitJoin(words: seq<string>)
    requires AreWords(words)
    ensures Split(Join(words)) == words
  {
    if |words| == 0 {
    } else if |words| == 1 {
      assert words[0] in words;
      SplitWord(words[0]);
    } else {
      assert words[0] in words;
      var rest := words[1..];
      assert Join(words) == words[0] + [' '] + Join(rest);
      SplitSpaceConcat(words[0], ' ', Join(rest));
      SplitWord(words[0]);
      assert forall w :: w in rest ==> w in words;
      SplitJoin(rest);
    }
  }

  /** Joining lowered words gives a lowered string. */
  lemma {:induction false} JoinLowered(words: seq<string>)
    requires forall w :: w in words ==> IsLowered(w)
    ensures IsLowered(Join(words))
  {
    if |words| == 1 {
      assert words[0] in words;
    } else if |words| > 1 {
      assert words[0] in words;
      assert forall w :: w in words[1..] ==> w in words;
      JoinLowered(words[1..]);
      var j := Join(words[1..]);
      assert Join(words) == words[0] + " " + j;
      forall i | 0 <= i < |Join(words)| ensures Lower(Join(words)[i]) == Join(words)[i] {
        if i < |words[0]| {
          assert Join(words)[i] == words[0][i];
        } else if i > |words[0]| {
          assert Join(words)[i] == j[i - |words[0]| - 1];
        }
      }
    }
  }

  /** `" ".join(s.split())`: whitespace runs collapse to one space, ends are trimmed. */
  function CollapseSpaces(s: string): string {
    Join(Split(s))
  }

  /** The words of a lowered string are lowered. */
  lemma SplitOfLowered(s: string)
    requires IsLowered(s)
    ensures forall w :: w in Split(s) ==> IsLowered(w)
  {
    SplitChars(s);
    forall w | w in Split(s) ensures IsLowered(w) {
      forall i | 0 <= i < |w| ensures Lower(w[i]) == w[i] {
        assert w[i] in w;
      }
    }
  }

  /** `" ".join(text.lower().split())`, the key under which question texts are compared
      (`_normalize_question_text` in app/services/quiz.py and `_normalize_question` in
      app/services/quiz_loader.py). */
  function NormalizeSpacing(text: string): string {
    CollapseSpaces(LowerStr(text))
  }

  /** The normalised text is lowered and space-collapsed already, so normalising it
      again changes nothing; and its words are exactly the words of the lowered text. */
  lemma {:induction false} NormalizeSpacingIdempotent(text: string)
    ensures NormalizeSpacing(NormalizeSpacing(text)) == NormalizeSpacing(text)
    ensures Split(NormalizeSpacing(text)) == Split(LowerStr(text))
  {
    var words := Split(LowerStr(text));
    SplitAreWords(LowerStr(text));
    LowerStrIsLowered(text);
    SplitOfLowered(LowerStr(text));
    JoinLowered(words);
    LowerStrOfLowered(Join(words));
    SplitJoin(words);
  }

  // ---------------------------------------------------------------------
  // Substrings
  // ---------------------------------------------------------------------

  /** `sub` occurs in `s` at position `i`. */
  predicate HasAt(s: string, i: nat, sub: string) {
    i + |sub| <= |s| && s[i..i + |sub|] == sub
  }

  /** Python's `sub in s`. */
  predicate IsSubstring(sub: string, s: string) {
    exists i :: 0 <= i <= |s| && HasAt(s, i, sub)
  }

  // ---------------------------------------------------------------------
  // app/utils/text.py
  // ---------------------------------------------------------------------

  /** `re.sub(r"[^\w\s]", " ", s)`: every character that is neither a word character
      nor whitespace becomes a space. */
  function PunctToSpace(s: string): string {
    seq(|s|, i requires 0 <= i < |s| => if IsWordChar(s[i]) || IsSpace(s[i]) then s[i] else ' ')
  }

  /** normalize_words: the lowered words of `text`, punctuation acting as a separator. */
  function NormalizeWords(text: string): (words: seq<string>)
    ensures forall w :: w in words ==> w != [] && IsLowered(w)
    ensures forall w :: w in words ==> forall c :: c in w ==> IsWordChar(c)
  {
    var cleaned := PunctToSpace(LowerStr(text));
    LowerStrIsLowered(text);
    assert IsLowered(cleaned);
    SplitOfLowered(cleaned);
    SplitChars(cleaned);
    SplitAreWords(cleaned);
    assert forall c :: c in cleaned ==> IsWordChar(c) || IsSpace(c);
    Split(cleaned)
  }

  lemma PunctToSpaceConcat(a: string, b: string)
    ensures PunctToSpace(a + b) == PunctToSpace(a) + PunctToSpace(b)
  {
  }

  /** Any character that is not a word character splits words: the words of
      `a + [x] + b` are the words of `a` followed by the words of `b`. */
  lemma NormalizeWordsSeparator(a: string, x: char, b: string)
    requires !IsWordChar(x)
    ensures NormalizeWords(a + [x] + b) == NormalizeWords(a) + NormalizeWords(b)
  {
    LowerFacts(x);
    var y := if IsSpace(Lower(x)) then Lower(x) else ' ';
    LowerStrConcat(a + [x], b);
    LowerStrConcat(a, [x]);
    PunctToSpaceConcat(LowerStr(a) + LowerStr([x]), LowerStr(b));
    PunctToSpaceConcat(LowerStr(a), LowerStr([x]));
    assert PunctToSpace(LowerStr([x])) == [y];
    assert PunctToSpace(LowerStr(a + [x] + b)) == PunctToSpace(LowerStr(a)) + [y] + PunctToSpace(LowerStr(b));
    SplitSpaceConcat(PunctToSpace(LowerStr(a)), y, PunctToSpace(LowerStr(b)));
  }

  /** The per-word test of contains_profanity. */
  predicate IsProfaneWord(word: string, exactWords: set<string>, prefixes: set<string>, exceptions: set<string>) {
    word !in exceptions && (word in exactWords || exists p :: p in prefixes && p <= word)
  }

  /** contains_profanity: the words are scanned in order; an exception word is skipped,
      an exact word or a word with a listed prefix answers true. */
  predicate ContainsProfanity(words: seq<string>, exactWords: set<string>, prefixes: set<string>, exceptions: set<string>) {
    if words == [] then false
    else if words[0] in exceptions then ContainsProfanity(words[1..], exactWords, prefixes, exceptions)
    else if words[0] in exactWords then true
    else if exists p :: p in prefixes && p <= words[0] then true
    else ContainsProfanity(words[1..], exactWords, prefixes, exceptions)
  }

  /** The scan answers true exactly when some word is profane and not an exception;
      in particular an exception word never triggers it, and an empty list never does. */
  lemma {:induction false} ContainsProfanityIff(words: seq<string>, exactWords: set<string>, prefixes: set<string>, exceptions: set<string>)
    ensures ContainsProfanity(words, exactWords, prefixes, exceptions)
        <==> exists i :: 0 <= i < |words| && IsProfaneWord(words[i], exactWords, prefixes, exceptions)
    ensures words == [] ==> !ContainsProfanity(words, exactWords, prefixes, exceptions)
    ensures (forall i :: 0 <= i < |words| ==> words[i] in exceptions) ==> !ContainsProfanity(words, exactWords, prefixes, exceptions)
  {
    if words != [] {
      ContainsProfanityIff(words[1..], exactWords, prefixes, exceptions);
      if exists i :: 0 <= i < |words| && IsProfaneWord(words[i], exactWords, prefixes, exceptions) {
        var i :| 0 <= i < |words| && IsProfaneWord(words[i], exactWords, prefixes, exceptions);
        if i > 0 {
          assert IsProfaneWord(words[1..][i - 1], exactWords, prefixes, exceptions);
        }
      }
      if exists i :: 0 <= i < |words[1..]| && IsProfaneWord(words[1..][i], exactWords, prefixes, exceptions) {
        var i :| 0 <= i < |words[1..]| && IsProfaneWord(words[1..][i], exactWords, prefixes, exceptions);
        assert IsProfaneWord(words[i + 1], exactWords, prefixes, exceptions);
      }
    }
  }

  /** One character after a link marker that is not whitespace (the `\S+` of the pattern). */
  predicate NonSpaceAt(s: string, i: nat) {
    i < |s| && !IsSpace(s[i])
  }

  /** The link pattern `https?://\S+|www\.\S+|t\.me/\S+` matched at position `i`,
      following the pattern's structure (the `s` of `https` is optional). */
  predicate LinkMatchAt(s: string, i: nat) {
    || (HasAt(s, i, "http")
        && var j := if HasAt(s, i + 4, "s") then i + 5 else i + 4;
           HasAt(s, j, "://") && NonSpaceAt(s, j + 3))
    || (HasAt(s, i, "www.") && NonSpaceAt(s, i + 4))
    || (HasAt(s, i, "t.me/") && NonSpaceAt(s, i + 5))
  }

  /** contains_forbidden_link: the case-insensitive search of the link pattern. */
  predicate ContainsForbiddenLink(text: string) {
    exists i :: 0 <= i <= |text| && LinkMatchAt(LowerStr(text), i)
  }

  lemma HasAtConcat(s: string, i: nat, a: string, b: string)
    ensures HasAt(s, i, a + b) <==> HasAt(s, i, a) && HasAt(s, i + |a|, b)
  {
    if HasAt(s, i, a) && HasAt(s, i + |a|, b) {
      assert s[i..i + |a + b|] == s[i..i + |a|] + s[i + |a|..i + |a| + |b|];
    }
    if HasAt(s, i, a + b) {
      assert s[i..i + |a|] == (a + b)[..|a|];
      assert s[i + |a|..i + |a| + |b|] == (a + b)[|a|..];
    }
  }

  /** The pattern matches exactly where one of the four markers is followed by a
      non-whitespace character. */
  lemma LinkMatchAtIff(s: string, i: nat)
    ensures LinkMatchAt(s, i) <==>
      || (HasAt(s, i, "http://") && NonSpaceAt(s, i + 7))
      || (HasAt(s, i, "https://") && NonSpaceAt(s, i + 8))
      || (HasAt(s, i, "www.") && NonSpaceAt(s, i + 4))
      || (HasAt(s, i, "t.me/") && NonSpaceAt(s, i + 5))
  {
    assert "http://" == "http" + "://";
    assert "https://" == "http" + "s" + "://";
    HasAtConcat(s, i, "http", "://");
    HasAtConcat(s, i, "http" + "s", "://");
    HasAtConcat(s, i, "http", "s");
    if HasAt(s, i + 4, "s") {
      assert s[i + 4] == 's';
      assert !HasAt(s, i + 4, "://");
    } else {
      assert !HasAt(s, i, "https://");
    }
  }
}
