/**
 * The dictionary screen: a query is cleaned down to lower-case letters before it is
 * looked up, the answer is turned into a message, and the list of two-letter words is
 * kept sorted.
 */
module Dictionary {
  import opened Wrappers

  predicate IsAsciiLetter(c: char) {
    'a' <= c <= 'z' || 'A' <= c <= 'Z'
  }

  predicate IsLowerWord(s: string) {
    forall k :: 0 <= k < |s| ==> 'a' <= s[k] <= 'z'
  }

  /** Replacing every run of characters outside a-z and A-Z with nothing. */
  function StripInvalid(q: string): (r: string)
    ensures forall k :: 0 <= k < |r| ==> IsAsciiLetter(r[k])
  {
    if q == [] then [] else (if IsAsciiLetter(q[0]) then [q[0]] else []) + StripInvalid(q[1..])
  }

  function Lower(c: char): (d: char)
    ensures IsAsciiLetter(c) ==> 'a' <= d <= 'z'
  {
    if 'A' <= c <= 'Z' then (c as int - 'A' as int + 'a' as int) as char else c
  }

  /** lowercased(), on a string of ASCII letters. */
  function LowerCased(s: string): (r: string)
    requires forall k :: 0 <= k < |s| ==> IsAsciiLetter(s[k])
    ensures |r| == |s| && IsLowerWord(r)
    ensures forall k :: 0 <= k < |s| ==> r[k] == Lower(s[k])
  {
    seq(|s|, k requires 0 <= k < |s| => Lower(s[k]))
  }

  /** The query as it is sent: its letters only, lower-cased. */
  function Sanitize(q: string): (r: string)
    ensures IsLowerWord(r)
  {
    LowerCased(StripInvalid(q))
  }

  lemma StripInvalidAppend(a: string, b: string)
    ensures StripInvalid(a + b) == StripInvalid(a) + StripInvalid(b)
  {
    if a != [] {
      assert (a + b)[1..] == a[1..] + b;
      StripInvalidAppend(a[1..], b);
    } else {
      assert a + b == b;
    }
  }

  /**
   * Sanitising works character by character and keeps order: a letter becomes its lower
   * case, anything else disappears.
   */
  lemma SanitizeAppend(a: string, b: string)
    ensures Sanitize(a + b) == Sanitize(a) + Sanitize(b)
  {
    StripInvalidAppend(a, b);
    LowerCasedAppend(StripInvalid(a), StripInvalid(b));
  }

  lemma LowerCasedAppend(x: string, y: string)
    requires forall k :: 0 <= k < |x| ==> IsAsciiLetter(x[k])
    requires forall k :: 0 <= k < |y| ==> IsAsciiLetter(y[k])
    ensures LowerCased(x + y) == LowerCased(x) + LowerCased(y)
  {
    var l, r := LowerCased(x + y), LowerCased(x) + LowerCased(y);
    forall k | 0 <= k < |l| ensures l[k] == r[k] {
      if k < |x| {
        assert (x + y)[k] == x[k];
      } else {
        assert (x + y)[k] == y[k - |x|];
      }
    }
  }

  lemma SanitizeChar(c: char)
    ensures Sanitize([c]) == if IsAsciiLetter(c) then [Lower(c)] else []
  {
    assert [c][1..] == [];
    assert StripInvalid([c]) == if IsAsciiLetter(c) then [c] else [];
  }

  lemma {:induction false} StripLowerWord(s: string)
    requires IsLowerWord(s)
    ensures StripInvalid(s) == s
  {
    if s != [] {
      StripLowerWord(s[1..]);
      assert [s[0]] + s[1..] == s;
    }
  }

  /** A query is sent as typed exactly when it is made of lower-case letters only. */
  lemma SanitizeFixed(q: string)
    ensures Sanitize(q) == q <==> IsLowerWord(q)
  {
    if IsLowerWord(q) {
      StripLowerWord(q);
    }
  }

  /** Sanitising a sanitised query changes nothing. */
  lemma SanitizeIdempotent(q: string)
    ensures Sanitize(Sanitize(q)) == Sanitize(q)
  {
    SanitizeFixed(Sanitize(q));
  }

  /** A query without letters is enabled for lookup yet sanitised to nothing. */
  lemma SanitizeDigitsOnly()
    ensures Sanitize("42") == ""
  {
    assert "42"[1..] == "2" && "2"[1..] == [];
  }

  /** What the dictionary answers about a word. */
  datatype DictionaryEntry = DictionaryEntry(word: Option<string>, definition: Option<string>)

  /** The message for a looked-up word: not in the dictionary, or valid and perhaps defined. */
  function LookupMessage(submitted: string, entry: DictionaryEntry): string {
    var head := "\"" + submitted + "\" is ";
    if entry.word.None? then head + "not in the dictionary."
    else
      head + "a valid word!"
        + if entry.definition.Some? then "\n" + entry.word.value + ": " + entry.definition.value else ""
  }

  /**
   * For a word without newlines the message names the word, says "not" exactly when the
   * word is unknown, and has a second line exactly when a definition came with it.
   */
  lemma LookupMessageSpec(submitted: string, entry: DictionaryEntry)
    requires '\n' !in submitted
    ensures var m, p := LookupMessage(submitted, entry), |submitted| + 6;
      && |m| > p + 3 && m[..p] == "\"" + submitted + "\" is "
      && (m[p..p + 3] == "not" <==> entry.word.None?)
      && ('\n' in m <==> entry.word.Some? && entry.definition.Some?)
  {
    var m, p := LookupMessage(submitted, entry), |submitted| + 6;
    var head := "\"" + submitted + "\" is ";
    var tail := if entry.word.None? then "not in the dictionary." else "a valid word!";
    QuotedHead(submitted);
    MessageTail(entry.word.None?);
    var first := head + tail;
    assert '\n' !in first;
    assert first[p..p + 3] == tail[..3];
    if entry.word.Some? && entry.definition.Some? {
      var extra := "\n" + entry.word.value + ": " + entry.definition.value;
      assert m == first + extra;
      assert m[p..p + 3] == first[p..p + 3];
      assert m[|first|] == '\n';
    } else {
      assert m == first;
    }
  }

  /** The quoted word opening every message, on one line. */
  lemma QuotedHead(submitted: string)
    requires '\n' !in submitted
    ensures var head := "\"" + submitted + "\" is ";
      |head| == |submitted| + 6 && '\n' !in head
  {
    var head := "\"" + submitted + "\" is ";
    forall k | 0 <= k < |head| ensures head[k] != '\n' {
      if 1 <= k < |submitted| + 1 {
        assert head[k] == submitted[k - 1];
      }
    }
  }

  /** The verdict after the quoted word: one line, starting "not" only for an unknown word. */
  lemma MessageTail(unknown: bool)
    ensures var tail := if unknown then "not in the dictionary." else "a valid word!";
      |tail| > 3 && '\n' !in tail && tail[..3] == (if unknown then "not" else "a v")
  {
    if unknown {
      var tail := "not in the dictionary.";
      assert forall k :: 0 <= k < |tail| ==> tail[k] != '\n';
    } else {
      var tail := "a valid word!";
      assert forall k :: 0 <= k < |tail| ==> tail[k] != '\n';
    }
  }

  /** Lexicographic order of strings by character code. */
  predicate WordLe(a: string, b: string) {
    if a == [] then true
    else if b == [] then false
    else if a[0] != b[0] then a[0] < b[0]
    else WordLe(a[1..], b[1..])
  }

  lemma {:induction false} WordLeTotal(a: string, b: string)
    ensures WordLe(a, b) || WordLe(b, a)
  {
    if a != [] && b != [] && a[0] == b[0] {
      WordLeTotal(a[1..], b[1..]);
    }
  }

  lemma {:induction false} WordLeTransitive(a: string, b: string, c: string)
    requires WordLe(a, b) && WordLe(b, c)
    ensures WordLe(a, c)
  {
    if a != [] && b != [] && c != [] && a[0] == b[0] && b[0] == c[0] {
      WordLeTransitive(a[1..], b[1..], c[1..]);
    }
  }

  predicate Sorted(s: seq<string>) {
    forall i :: 0 < i < |s| ==> WordLe(s[i - 1], s[i])
  }

  /** Any two words of a sorted list are in order, not only neighbours. */
  lemma {:induction false} SortedPairs(s: seq<string>, i: int, j: int)
    requires Sorted(s) && 0 <= i <= j < |s|
    ensures WordLe(s[i], s[j])
    decreases j - i
  {
    if i == j {
      WordLeReflexive(s[i]);
    } else {
      SortedPairs(s, i, j - 1);
      WordLeTransitive(s[i], s[j - 1], s[j]);
    }
  }

  lemma WordLeReflexive(a: string)
    ensures WordLe(a, a)
  {
    WordLeTotal(a, a);
  }

  /** A word put into a sorted list before the first word it does not follow. */
  function Insert(x: string, s: seq<string>): (r: seq<string>)
    ensures |r| == |s| + 1 && multiset(r) == multiset(s) + multiset{x}
    ensures s != [] ==> r[0] == x || r[0] == s[0]
    ensures s == [] ==> r == [x]
  {
    if s == [] then [x]
    else if WordLe(x, s[0]) then [x] + s
    else
      var r := [s[0]] + Insert(x, s[1..]);
      assert s == [s[0]] + s[1..];
      r
  }

  lemma {:induction false} InsertSorted(x: string, s: seq<string>)
    requires Sorted(s)
    ensures Sorted(Insert(x, s))
  {
    if s != [] && !WordLe(x, s[0]) {
      InsertSorted(x, s[1..]);
      WordLeTotal(x, s[0]);
      var r := Insert(x, s);
      assert r == [s[0]] + Insert(x, s[1..]);
    }
  }

  /** sorted() on the two-letter words. */
  function SortedWords(words: seq<string>): (r: seq<string>)
    ensures multiset(r) == multiset(words)
  {
    if words == [] then []
    else
      var r := Insert(words[|words| - 1], SortedWords(words[..|words| - 1]));
      assert words == words[..|words| - 1] + [words[|words| - 1]];
      r
  }

  /** The stored list is in order and holds exactly the words received. */
  lemma {:induction false} SortedWordsSpec(words: seq<string>)
    ensures Sorted(SortedWords(words)) && multiset(SortedWords(words)) == multiset(words)
  {
    if words != [] {
      SortedWordsSpec(words[..|words| - 1]);
      InsertSorted(words[|words| - 1], SortedWords(words[..|words| - 1]));
    }
  }

  /** The state of the dictionary screen. */
  class DictionaryView {
    var queryWord: string
    var message: string
    var twoLetterWords: seq<string>

    constructor ()
      ensures queryWord == "" && message == "" && twoLetterWords == []
    {
      queryWord := "";
      message := "";
      twoLetterWords := [];
    }

    /** The lookup button is disabled while the query is empty. */
    predicate LookupEnabled()
      reads this
    {
      queryWord != ""
    }

    /** Pressing lookup: the query is sanitised in place and that is the word sent. */
    method SubmitQueryWord() returns (submitted: string)
      requires LookupEnabled()
      modifies this
      ensures queryWord == Sanitize(old(queryWord)) && submitted == queryWord
      ensures message == old(message) && twoLetterWords == old(twoLetterWords)
    {
      queryWord := StripInvalid(queryWord);
      queryWord := LowerCased(queryWord);
      submitted := queryWord;
    }

    /** The answer to a lookup becomes the message. */
    method ReceiveEntry(submitted: string, entry: DictionaryEntry)
      modifies this
      ensures message == LookupMessage(submitted, entry)
      ensures queryWord == old(queryWord) && twoLetterWords == old(twoLetterWords)
    {
      var head := "\"" + submitted + "\" is ";
      if entry.word.None? {
        message := head + "not in the dictionary.";
      } else {
        message := head + "a valid word!";
        if entry.definition.Some? {
          message := message + ("\n" + entry.word.value + ": " + entry.definition.value);
        }
      }
    }

    /** The two-letter words received are stored sorted. */
    method ReceiveTwoLetterWords(words: seq<string>)
      modifies this
      ensures twoLetterWords == SortedWords(words)
      ensures Sorted(twoLetterWords) && multiset(twoLetterWords) == multiset(words)
      ensures queryWord == old(queryWord) && message == old(message)
    {
      twoLetterWords := SortedWords(words);
      SortedWordsSpec(words);
    }
  }
}
