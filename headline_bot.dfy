/** The second, smaller bot: the text the generation service returns becomes
    the headline by changing every "\n" into a space and trimming. Other line
    terminators, such as '\r', are kept. */
module HeadlineBot {
  import opened Strings
  import opened JavaString

  /** generateHeadline's last step: replace("\n", " ") then trim(). */
  function NormalizeHeadline(generatedText: string): string {
    Trim(Replace(generatedText, "\n", " "))
  }

  /** The "\n" replacement in character terms: every line feed becomes a space
      and every other character, '\r' included, stays where it was. */
  lemma NewlinesBecomeSpaces(text: string)
    ensures Replace(text, "\n", " ") == Substitute(text, '\n', ' ')
    ensures forall i :: 0 <= i < |text| ==> Substitute(text, '\n', ' ')[i] != '\n'
  {
    assert "\n" == ['\n'] && " " == [' '];
    ReplaceSingleChar(text, '\n', ' ');
  }

  /** The normalised headline is the contiguous block of the input that starts
      at offset k (the number of leading blanks once line feeds are spaces),
      with each '\n' read as ' ' and each other character kept; everything of
      the input outside that block is blank (a line feed, U+000A, is itself
      at or below U+0020). */
  lemma NormalizeIsSlice(text: string)
    ensures var r := NormalizeHeadline(text);
            var k := LeadingBlanks(Substitute(text, '\n', ' '));
            && k + |r| <= |text|
            && (forall i :: 0 <= i < |r| ==> r[i] == if text[k + i] == '\n' then ' ' else text[k + i])
            && (forall i :: 0 <= i < |text| && !(k <= i < k + |r|) ==> IsBlank(text[i]))
  {
    NewlinesBecomeSpaces(text);
    TrimmedSubstitution(text, Substitute(text, '\n', ' '));
  }

  /** The same statement about trim applied to text with its line feeds
      turned into spaces. */
  lemma TrimmedSubstitution(text: string, u: string)
    requires |u| == |text|
    requires forall j :: 0 <= j < |u| ==> u[j] == if text[j] == '\n' then ' ' else text[j]
    ensures var r := Trim(u);
            var k := LeadingBlanks(u);
            && k + |r| <= |text|
            && (forall i :: 0 <= i < |r| ==> r[i] == if text[k + i] == '\n' then ' ' else text[k + i])
            && (forall i :: 0 <= i < |text| && !(k <= i < k + |r|) ==> IsBlank(text[i]))
  {
    var k := LeadingBlanks(u);
    var r := Trim(u);
    assert r == u[k..k + |r|];
    forall i | 0 <= i < |r|
      ensures r[i] == if text[k + i] == '\n' then ' ' else text[k + i]
    {
      assert r[i] == u[k + i];
    }
    forall i | 0 <= i < |text| && !(k <= i < k + |r|)
      ensures IsBlank(text[i])
    {
      assert IsBlank(u[i]);
    }
  }

  /** No line feed is left in the headline. */
  lemma NormalizeHasNoNewline(text: string)
    ensures '\n' !in NormalizeHeadline(text)
  {
    NormalizeIsSlice(text);
    var r := NormalizeHeadline(text);
    forall i | 0 <= i < |r|
      ensures r[i] != '\n'
    {
    }
  }

  /** trim leaves no char at or below U+0020 at either end, and only deletes. */
  lemma NormalizeTrimmedAndShorter(text: string)
    ensures IsTrimmed(NormalizeHeadline(text))
    ensures |NormalizeHeadline(text)| <= |text|
  {
    NormalizeIsSlice(text);
  }

  /** A headline that is already trimmed and has no line feed is left as it is. */
  lemma NormalizeFixesOneLineTrimmed(text: string)
    requires IsTrimmed(text) && '\n' !in text
    ensures NormalizeHeadline(text) == text
  {
    MissingHeadNeverContains(text, "\n");
    ReplaceAbsent(text, "\n", " ");
    TrimTrimmed(text);
  }

  /** Normalising twice is normalising once. */
  lemma NormalizeIdempotent(text: string)
    ensures NormalizeHeadline(NormalizeHeadline(text)) == NormalizeHeadline(text)
  {
    NormalizeHasNoNewline(text);
    NormalizeFixesOneLineTrimmed(NormalizeHeadline(text));
  }

}
