/**
 * Title generation on the server (backend/server.js): the local truncation
 * `generateBasicSummary` and `generateAISummary`, whose AI completion is an
 * oracle value (`None` when the call fails or throws).
 */
module Summary {
  import opened Wrappers
  import opened JsText

  /** The character budget of both fallbacks. */
  const Budget: nat := 100

  /** The ellipsis both fallbacks append. */
  const Ellipsis: string := "..."

  /**
   * `generateBasicSummary(content)`: short content is kept whole; longer
   * content is cut after the last '.' among its first 100 characters when that
   * period lies past index 50, and otherwise at the last space among them,
   * with "..." appended.
   */
  function BasicSummary(content: string): (r: string)
    ensures content == "" ==> r == ""
    ensures |content| <= Budget ==> r == content
    ensures |r| <= Budget + |Ellipsis| - 1
  {
    if content == "" then ""
    else if |content| <= Budget then content
    else
      var truncated := Substring(content, 0, Budget);
      var lastPeriod := LastIndexOf(truncated, '.');
      var lastSpace := LastIndexOf(truncated, ' ');
      if lastPeriod > 50 then Substring(truncated, 0, lastPeriod + 1)
      else Substring(truncated, 0, lastSpace) + Ellipsis
  }

  /**
   * The sentence cut: when a period lies past index 50 among the first 100
   * characters, the summary is the content up to and including the LAST such
   * period, so it is a prefix of the content that ends in '.' and no further
   * period precedes the budget.
   */
  lemma BasicSummaryAtSentence(content: string)
    requires |content| > Budget
    requires LastIndexOf(content[..Budget], '.') > 50
    ensures var r := BasicSummary(content);
      && IsPrefix(r, content) && EndsWith(r, ".")
      && 52 <= |r| <= Budget
      && forall k :: |r| <= k < Budget ==> content[k] != '.'
  {
    var r := BasicSummary(content);
    var p := LastIndexOf(content[..Budget], '.');
    assert r == content[..Budget][..p + 1];
    assert r == content[..p + 1];
    assert r[|r| - 1..] == ".";
  }

  /**
   * The word cut: with no period past index 50 among the first 100
   * characters, the summary is the content up to (not including) the last
   * space among them, followed by "..."; when there is no space at all, the
   * cut is empty and only "..." is left.
   */
  lemma BasicSummaryAtWord(content: string)
    requires |content| > Budget
    requires LastIndexOf(content[..Budget], '.') <= 50
    ensures var r, s := BasicSummary(content), LastIndexOf(content[..Budget], ' ');
      && EndsWith(r, Ellipsis)
      && IsPrefix(r[..|r| - |Ellipsis|], content)
      && (s >= 0 ==> r == content[..s] + Ellipsis && content[s] == ' ')
      && (s < 0 ==> r == Ellipsis)
      && |r| < Budget + |Ellipsis|
  {
    var r := BasicSummary(content);
    var truncated := content[..Budget];
    var s := LastIndexOf(truncated, ' ');
    var cut := Substring(truncated, 0, s);
    assert r == cut + Ellipsis;
    assert cut == content[..Max(s, 0)];
    assert r[..|r| - |Ellipsis|] == cut;
    assert r[|r| - |Ellipsis|..] == Ellipsis;
  }

  /**
   * `generateAISummary(content)` with the completion's text as an oracle:
   * empty content gives "" without any call; a completion is trimmed; a
   * failed call falls back to the first 100 characters and "...".
   */
  function AISummary(content: string, completion: Option<string>): (r: string)
    ensures content == "" ==> r == ""
  {
    if content == "" then ""
    else match completion
      case Some(text) => Trim(text)
      case None => Substring(content, 0, Budget) + Ellipsis
  }

  /**
   * The fallback of a failed AI call always ends in "...", even for short
   * content, and what precedes it is the content cut at 100 characters.
   */
  lemma AIFallbackShape(content: string)
    requires content != ""
    ensures var r := AISummary(content, None);
      && EndsWith(r, Ellipsis)
      && |r| == Min(|content|, Budget) + |Ellipsis|
      && r[..|r| - |Ellipsis|] == content[..Min(|content|, Budget)]
  {
    var r := AISummary(content, None);
    var cut := Substring(content, 0, Budget);
    assert cut == content[..Min(|content|, Budget)];
    assert r[..|r| - |Ellipsis|] == cut;
    assert r[|r| - |Ellipsis|..] == Ellipsis;
  }
}
