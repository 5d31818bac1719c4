/** Naming the markdown file a fetched web page is saved to
    (Assignment-1/Website/main.py, fetch_and_save_webpage). */
module Website {

  /** Python's s.replace(target, replacement) for one-character strings: every
      occurrence of target becomes replacement, everything else stays. */
  function ReplaceChar(s: string, target: char, replacement: char): (r: string)
    ensures |r| == |s|
    ensures forall i :: 0 <= i < |s| ==> r[i] == if s[i] == target then replacement else s[i]
  {
    if |s| == 0 then "" else [if s[0] == target then replacement else s[0]] + ReplaceChar(s[1..], target, replacement)
  }

  predicate IsSeparator(c: char)
  {
    c == '/' || c == ':'
  }

  /** The character a URL character becomes in the file name. */
  function Sanitized(c: char): char
  {
    if IsSeparator(c) then '_' else c
  }

  /** url.replace("/", "_").replace(":", "_") */
  function SanitizeUrl(url: string): string
  {
    ReplaceChar(ReplaceChar(url, '/', '_'), ':', '_')
  }

  /** Position by position, a slash or a colon becomes an underscore and every
      other character is kept; no separator is left. */
  lemma SanitizeUrlAt(url: string)
    ensures |SanitizeUrl(url)| == |url|
    ensures forall i :: 0 <= i < |url| ==> SanitizeUrl(url)[i] == Sanitized(url[i])
    ensures forall i :: 0 <= i < |url| ==> !IsSeparator(SanitizeUrl(url)[i])
  {
  }

  /** The file name for a URL: the sanitised URL followed by ".md". */
  function FileName(url: string): (r: string)
    ensures |r| == |url| + 3
    ensures r[|url|..] == ".md"
    ensures forall i :: 0 <= i < |url| ==> r[i] == Sanitized(url[i])
    ensures '/' !in r && ':' !in r
  {
    SanitizeUrlAt(url);
    SanitizeUrl(url) + ".md"
  }

  /** Sanitising twice is sanitising once. */
  lemma SanitizeIdempotent(url: string)
    ensures SanitizeUrl(SanitizeUrl(url)) == SanitizeUrl(url)
  {
    SanitizeUrlAt(url);
    SanitizeUrlAt(SanitizeUrl(url));
  }

  /** The order of the two replacements does not matter, because the
      underscore is neither a slash nor a colon. */
  lemma ReplaceOrderIrrelevant(url: string)
    ensures ReplaceChar(ReplaceChar(url, ':', '_'), '/', '_') == SanitizeUrl(url)
  {
    SanitizeUrlAt(url);
  }

  /** Two URLs share a file name exactly when they have the same length and
      agree everywhere once separators are read as underscores. */
  lemma FileNameCollision(u: string, v: string)
    ensures FileName(u) == FileName(v) <==>
      |u| == |v| && forall i :: 0 <= i < |u| ==> Sanitized(u[i]) == Sanitized(v[i])
  {
    if |u| == |v| && forall i :: 0 <= i < |u| ==> Sanitized(u[i]) == Sanitized(v[i]) {
      assert FileName(u)[..|u|] == FileName(v)[..|v|];
      assert FileName(u) == FileName(u)[..|u|] + FileName(u)[|u|..];
      assert FileName(v) == FileName(v)[..|v|] + FileName(v)[|v|..];
    }
    if FileName(u) == FileName(v) {
      forall i | 0 <= i < |u| ensures Sanitized(u[i]) == Sanitized(v[i]) {
        assert FileName(u)[i] == FileName(v)[i];
      }
    }
  }

  /** The naming loses information: a slash, a colon and an underscore at the
      same place give the same file name. */
  lemma FileNameNotInjective()
    ensures FileName("a/b") == FileName("a:b") == FileName("a_b") == "a_b.md"
  {
    FileNameCollision("a/b", "a_b");
    FileNameCollision("a:b", "a_b");
    assert FileName("a_b")[..3] == "a_b";
    assert FileName("a_b") == FileName("a_b")[..3] + FileName("a_b")[3..];
  }

  /** The outcome of fetch_and_save_webpage: the name of the saved file, or the
      status code of a failed fetch. */
  datatype FetchOutcome = Saved(fileName: string) | FetchFailed(statusCode: int)

  /** A fetch that does not answer 200 raises before anything is named;
      otherwise the page is saved under the sanitised URL with ".md" appended,
      a name without path separators. The fetch itself, the
      output directory and the write are not modelled. */
  function FetchAndSave(url: string, statusCode: int): (r: FetchOutcome)
    ensures r.FetchFailed? <==> statusCode != 200
    ensures r.FetchFailed? ==> r.statusCode == statusCode
    ensures r.Saved? ==> |r.fileName| == |url| + 3 && r.fileName[|url|..] == ".md"
    ensures r.Saved? ==> forall i :: 0 <= i < |url| ==> r.fileName[i] == Sanitized(url[i])
    ensures r.Saved? ==> '/' !in r.fileName && ':' !in r.fileName
  {
    if statusCode != 200 then FetchFailed(statusCode) else Saved(FileName(url))
  }
}
