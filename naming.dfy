/**
 * The strings the scraper derives from the user's topic and from a summary:
 * the search-page address, the output file name, and the bullet list written
 * under each headline.
 */
module Naming {
  import opened Text

  const SEARCH_URL_PREFIX := "https://www.bbc.com/search?q="
  const FILENAME_SUFFIX := "_news.txt"

  /**
   * The search address: the fixed prefix followed by the lower-cased topic,
   * appended as is (no percent-encoding), so the query holds one character per
   * topic character and no capital letter.
   */
  function SearchUrl(topic: string): (url: string)
    ensures |url| == |SEARCH_URL_PREFIX| + |topic|
    ensures url[..|SEARCH_URL_PREFIX|] == SEARCH_URL_PREFIX
    ensures url[|SEARCH_URL_PREFIX|..] == Lower(topic)
    ensures forall i :: |SEARCH_URL_PREFIX| <= i < |url| ==> !('A' <= url[i] <= 'Z')
  {
    SEARCH_URL_PREFIX + Lower(topic)
  }

  /** Two topics search the same page exactly when they differ only in letter case. */
  lemma SearchUrlIgnoresCase(topic: string, topic': string)
    ensures SearchUrl(topic) == SearchUrl(topic') <==> CaseVariant(topic, topic')
  {
    if SearchUrl(topic) == SearchUrl(topic') {
      assert Lower(topic) == SearchUrl(topic)[|SEARCH_URL_PREFIX|..];
      assert Lower(topic') == SearchUrl(topic')[|SEARCH_URL_PREFIX|..];
      forall i | 0 <= i < |topic|
        ensures LowerChar(topic[i]) == LowerChar(topic'[i])
      {
        assert Lower(topic)[i] == Lower(topic')[i];
      }
    }
    if CaseVariant(topic, topic') {
      LowerOfCaseVariant(topic, topic');
    }
  }

  // ---------------------------------------------------------------------------
  // The output file name

  /** `s.replace(' ', '_')`. */
  function ReplaceSpaces(s: string): string {
    seq(|s|, i requires 0 <= i < |s| => if s[i] == ' ' then '_' else s[i])
  }

  /** The characters the regular-expression class `[a-zA-Z0-9_]` accepts. */
  predicate IsWordChar(c: char) {
    'a' <= c <= 'z' || 'A' <= c <= 'Z' || '0' <= c <= '9' || c == '_'
  }

  /** The characters a sanitised file name is made of: `[a-z0-9_]`. */
  predicate IsSafeChar(c: char) {
    'a' <= c <= 'z' || '0' <= c <= '9' || c == '_'
  }

  /**
   * `re.sub(r'[^a-zA-Z0-9_]', '', s)`: every character outside the class is
   * dropped and every character inside it is kept, in order. A string made
   * only of class characters comes back whole; one with none of them comes
   * back empty.
   */
  function KeepWordChars(s: string): (r: string)
    ensures |r| <= |s|
    ensures forall i :: 0 <= i < |r| ==> IsWordChar(r[i]) && r[i] in s
    ensures (forall i :: 0 <= i < |s| ==> IsWordChar(s[i])) ==> r == s
    ensures (forall i :: 0 <= i < |s| ==> !IsWordChar(s[i])) ==> r == []
  {
    if s == [] then []
    else (if IsWordChar(s[0]) then [s[0]] else []) + KeepWordChars(s[1..])
  }

  /** The substitution works piece by piece: it keeps the class characters of each piece, in order. */
  lemma {:induction false} KeepWordCharsAppend(a: string, b: string)
    ensures KeepWordChars(a + b) == KeepWordChars(a) + KeepWordChars(b)
    decreases |a|
  {
    if a == [] {
      assert a + b == b;
    } else {
      var head := if IsWordChar(a[0]) then [a[0]] else [];
      KeepWordCharsAppend(a[1..], b);
      assert (a + b)[0] == a[0];
      assert (a + b)[1..] == a[1..] + b;
      calc {
        KeepWordChars(a + b);
        head + KeepWordChars(a[1..] + b);
        head + (KeepWordChars(a[1..]) + KeepWordChars(b));
        (head + KeepWordChars(a[1..])) + KeepWordChars(b);
        KeepWordChars(a) + KeepWordChars(b);
      }
    }
  }

  /** The file-name stem: lower-case, spaces to underscores, then only `[a-zA-Z0-9_]` kept. */
  function SafeFilename(topic: string): (r: string)
    ensures |r| <= |topic|
    ensures forall i :: 0 <= i < |r| ==> IsSafeChar(r[i])
  {
    KeepWordChars(ReplaceSpaces(Lower(topic)))
  }

  /** The name of the file the results go to. */
  function OutputFilename(topic: string): (name: string)
    ensures |name| == |SafeFilename(topic)| + |FILENAME_SUFFIX|
    ensures name[..|SafeFilename(topic)|] == SafeFilename(topic)
    ensures name[|name| - |FILENAME_SUFFIX|..] == FILENAME_SUFFIX
    ensures forall i :: 0 <= i < |name| - |FILENAME_SUFFIX| ==> IsSafeChar(name[i])
  {
    SafeFilename(topic) + FILENAME_SUFFIX
  }

  /** What one topic character becomes in the file name, if anything. */
  function SafeFragment(c: char): string {
    if c == ' ' || c == '_' then "_"
    else if 'A' <= c <= 'Z' then [LowerChar(c)]
    else if 'a' <= c <= 'z' || '0' <= c <= '9' then [c]
    else ""
  }

  /** The file-name stem built character by character, as an independent reference. */
  function SafeChars(topic: string): string {
    if topic == [] then [] else SafeFragment(topic[0]) + SafeChars(topic[1..])
  }

  lemma {:induction false} SafeFilenameIsCharwise(topic: string)
    ensures SafeFilename(topic) == SafeChars(topic)
    decreases |topic|
  {
    if topic != [] {
      SafeFilenameIsCharwise(topic[1..]);
      var s := ReplaceSpaces(Lower(topic));
      assert s[1..] == ReplaceSpaces(Lower(topic[1..]));
    }
  }

  lemma {:induction false} SafeCharsAppend(a: string, b: string)
    ensures SafeChars(a + b) == SafeChars(a) + SafeChars(b)
    decreases |a|
  {
    if a != [] {
      SafeCharsAppend(a[1..], b);
      assert (a + b)[0] == a[0];
      assert (a + b)[1..] == a[1..] + b;
    } else {
      assert a + b == b;
    }
  }

  /** Sanitising works piece by piece, and a space becomes exactly one underscore. */
  lemma SpaceBecomesUnderscore(before: string, after: string)
    ensures SafeFilename(before + " " + after) == SafeFilename(before) + "_" + SafeFilename(after)
  {
    SafeFilenameIsCharwise(before + " " + after);
    SafeFilenameIsCharwise(before);
    SafeFilenameIsCharwise(after);
    SafeCharsAppend(before + " ", after);
    SafeCharsAppend(before, " ");
    assert SafeChars(" ") == "_";
  }

  lemma {:induction false} SafeCharsOfSafe(s: string)
    requires forall i :: 0 <= i < |s| ==> IsSafeChar(s[i])
    ensures SafeChars(s) == s
    decreases |s|
  {
    if s != [] {
      SafeCharsOfSafe(s[1..]);
      assert [s[0]] + s[1..] == s;
    }
  }

  /** A sanitised name is its own sanitised name. */
  lemma SafeFilenameIdempotent(topic: string)
    ensures SafeFilename(SafeFilename(topic)) == SafeFilename(topic)
  {
    SafeFilenameIsCharwise(SafeFilename(topic));
    SafeCharsOfSafe(SafeFilename(topic));
  }

  // ---------------------------------------------------------------------------
  // The summary text

  /** Each summary sentence prefixed with a bullet, in order. */
  function BulletLines(sentences: seq<string>): (lines: seq<string>)
    ensures |lines| == |sentences|
    ensures forall i :: 0 <= i < |sentences| ==> lines[i] == "* " + sentences[i]
  {
    seq(|sentences|, i requires 0 <= i < |sentences| => "* " + sentences[i])
  }

  /**
   * The bullet lines joined by newlines, as written under "Summary:". An empty
   * summary gives empty text; otherwise the text opens with the first bullet.
   */
  function Bullets(sentences: seq<string>): (text: string)
    ensures sentences == [] ==> text == ""
    ensures sentences != [] ==> IsPrefix("* " + sentences[0], text)
  {
    Join("\n", BulletLines(sentences))
  }

  /**
   * Reading the bullet text back line by line gives one line per sentence,
   * "* " followed by that sentence, in sentence order.
   */
  lemma BulletsLineBySentence(sentences: seq<string>)
    requires |sentences| >= 1
    requires forall i :: 0 <= i < |sentences| ==> '\n' !in sentences[i]
    ensures |SplitLines(Bullets(sentences))| == |sentences|
    ensures forall i :: 0 <= i < |sentences| ==> SplitLines(Bullets(sentences))[i] == "* " + sentences[i]
  {
    var lines := BulletLines(sentences);
    forall i | 0 <= i < |lines|
      ensures '\n' !in lines[i]
    {
      assert lines[i] == "* " + sentences[i];
    }
    SplitJoin(lines);
  }
}
