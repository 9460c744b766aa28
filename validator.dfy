/**
 * `is_valid`: the decision whether a discovered link may be crawled, as a
 * function of the link's parsed components and of the robots.txt outcome.
 */
module UrlValidator {
  import opened Wrappers
  import opened Scanner

  /** The components of `urlparse(url)` that the decision reads. */
  datatype UrlParts = UrlParts(scheme: string, hostname: Option<string>, path: string)

  /**
   * What setting up, reading and consulting robots.txt gave: `can_fetch` said
   * yes, said no, or something on the way raised an exception.
   */
  datatype RobotsOutcome = Allow | Deny | Error

  /** The hosts the crawler may visit (compared for exact equality). */
  const AllowedHosts: set<string> :=
    {"www.ics.uci.edu", "www.cs.uci.edu", "www.informatics.uci.edu", "www.stat.uci.edu"}

  const Schemes: set<string> := {"http", "https"}

  /** The alternatives of the extension regex, one set per source line. */
  const BlockedExtensions: set<string> :=
    {"css", "js", "bmp", "gif", "jpg", "jpeg", "ico"}
    + {"png", "tif", "tiff", "mid", "mp2", "mp3", "mp4"}
    + {"wav", "avi", "mov", "mpeg", "ram", "m4v", "mkv", "ogg", "ogv", "pdf"}
    + {"ps", "eps", "tex", "ppt", "pptx", "doc", "docx", "xls", "xlsx", "names"}
    + {"data", "dat", "exe", "bz2", "tar", "msi", "bin", "7z", "psd", "dmg", "iso"}
    + {"epub", "dll", "cnf", "tgz", "sha1"}
    + {"thmx", "mso", "arff", "rtf", "jar", "csv"}
    + {"rm", "smil", "wmv", "swf", "wma", "zip", "rar", "gz"}

  /**
   * `p` is some newline-free text, then `.`, then `e`, then `tail`: the shape
   * `.*\.e` followed by `tail` (`.` in a Python regex does not match a newline).
   */
  predicate EndsWithExtension(p: string, e: string, tail: string) {
    var n := |p| - |tail| - |e| - 1;
    && n >= 0
    && p[n..] == "." + e + tail
    && '\n' !in p[..n]
  }

  /**
   * `re.match(r".*\.(e1|e2|...)$", p)` succeeds for the alternatives `exts`:
   * `$` matches at the very end or just before a final newline.
   */
  predicate MatchesExtensionPattern(p: string, exts: set<string>) {
    exists e :: e in exts && (EndsWithExtension(p, e, "") || EndsWithExtension(p, e, "\n"))
  }

  /** The extension test of `is_valid`. */
  predicate BlockedPath(p: string) {
    MatchesExtensionPattern(p, BlockedExtensions)
  }

  /**
   * `is_valid(url)` for `parts == urlparse(url)`: the allow-list, then robots.txt
   * (an exception there is swallowed and checking goes on), then the scheme, then
   * the extension test on the lower-cased path.
   */
  function IsValid(parts: UrlParts, robots: RobotsOutcome): bool {
    if parts.hostname.None? || parts.hostname.value !in AllowedHosts then false
    else if robots == Deny then false
    else if parts.scheme !in Schemes then false
    else !BlockedPath(Lower(parts.path))
  }

  /** A host outside the allow-list is rejected, whatever robots.txt would say. */
  lemma RejectsForeignHost(parts: UrlParts, robots: RobotsOutcome)
    requires parts.hostname.None? || parts.hostname.value !in AllowedHosts
    ensures !IsValid(parts, robots)
  {
  }

  /**
   * The allow-list is exact membership: sub-domains and the bare domain of an
   * allowed host are rejected, and the comparison is case-sensitive on the
   * hostname it is given.
   */
  lemma HostMatchIsExact(scheme: string, path: string, robots: RobotsOutcome)
    ensures !IsValid(UrlParts(scheme, Some("vision.ics.uci.edu"), path), robots)
    ensures !IsValid(UrlParts(scheme, Some("ics.uci.edu"), path), robots)
    ensures !IsValid(UrlParts(scheme, Some("WWW.ICS.UCI.EDU"), path), robots)
  {
    assert !IsValid(UrlParts(scheme, Some("vision.ics.uci.edu"), path), robots) by {
      assert "vision.ics.uci.edu" !in AllowedHosts;
      RejectsForeignHost(UrlParts(scheme, Some("vision.ics.uci.edu"), path), robots);
    }
    assert !IsValid(UrlParts(scheme, Some("ics.uci.edu"), path), robots) by {
      assert "ics.uci.edu" !in AllowedHosts;
      RejectsForeignHost(UrlParts(scheme, Some("ics.uci.edu"), path), robots);
    }
    assert !IsValid(UrlParts(scheme, Some("WWW.ICS.UCI.EDU"), path), robots) by {
      assert "WWW.ICS.UCI.EDU" !in AllowedHosts;
      RejectsForeignHost(UrlParts(scheme, Some("WWW.ICS.UCI.EDU"), path), robots);
    }
  }

  lemma RejectsRobotsDeny(parts: UrlParts)
    ensures !IsValid(parts, Deny)
  {
  }

  lemma RejectsOtherScheme(parts: UrlParts, robots: RobotsOutcome)
    requires parts.scheme !in Schemes
    ensures !IsValid(parts, robots)
  {
  }

  lemma RejectsBlockedExtension(parts: UrlParts, robots: RobotsOutcome)
    requires BlockedPath(Lower(parts.path))
    ensures !IsValid(parts, robots)
  {
  }

  /** Every gate passed: an allowed host, robots.txt not refusing, http(s), no blocked extension. */
  lemma AcceptsWhenAllGatesPass(parts: UrlParts, robots: RobotsOutcome)
    requires parts.hostname.Some? && parts.hostname.value in AllowedHosts
    requires robots != Deny
    requires parts.scheme in Schemes
    requires !BlockedPath(Lower(parts.path))
    ensures IsValid(parts, robots)
  {
  }

  /** A robots.txt failure is treated like permission. */
  lemma RobotsErrorActsAsAllow(parts: UrlParts)
    ensures IsValid(parts, Error) == IsValid(parts, Allow)
  {
  }

  lemma LowerIdempotent(s: string)
    ensures Lower(Lower(s)) == Lower(s)
  {
    LowerNoUpper(s);
    LowerKeepsLowerCase(Lower(s));
  }

  /** Paths that differ only in letter case get the same verdict. */
  lemma ExtensionTestIgnoresCase(scheme: string, host: Option<string>, p: string, q: string, robots: RobotsOutcome)
    requires Lower(p) == Lower(q)
    ensures IsValid(UrlParts(scheme, host, p), robots) == IsValid(UrlParts(scheme, host, q), robots)
  {
  }

  /** `p` ends in `.` and `e`. */
  predicate HasSuffix(p: string, e: string) {
    |e| < |p| && p[|p| - |e| - 1..] == "." + e
  }

  /** The pattern's shape puts a dot, and the tail, into the path. */
  lemma PatternShape(p: string, e: string, tail: string)
    ensures EndsWithExtension(p, e, tail) ==> '.' in p
    ensures EndsWithExtension(p, e, tail) && tail == "\n" ==> '\n' in p
  {
    if EndsWithExtension(p, e, tail) {
      var n := |p| - |tail| - |e| - 1;
      assert p[n] == p[n..][0];
      if tail == "\n" {
        assert p[|p| - 1] == p[n..][|p[n..]| - 1];
      }
    }
  }

  lemma SuffixFromPattern(p: string, e: string)
    requires '\n' !in p
    requires EndsWithExtension(p, e, "") || EndsWithExtension(p, e, "\n")
    ensures HasSuffix(p, e)
  {
    PatternShape(p, e, "\n");
    assert "." + e + "" == "." + e;
  }

  lemma PatternFromSuffix(p: string, e: string)
    requires '\n' !in p
    requires HasSuffix(p, e)
    ensures EndsWithExtension(p, e, "")
  {
    assert "." + e + "" == "." + e;
  }

  /** For a path without newlines the extension test is a plain suffix test. */
  lemma PatternIsSuffixTest(p: string, exts: set<string>)
    requires '\n' !in p
    ensures MatchesExtensionPattern(p, exts) <==> exists e :: e in exts && HasSuffix(p, e)
  {
    if MatchesExtensionPattern(p, exts) {
      var e :| e in exts && (EndsWithExtension(p, e, "") || EndsWithExtension(p, e, "\n"));
      SuffixFromPattern(p, e);
    }
    if exists e :: e in exts && HasSuffix(p, e) {
      var e :| e in exts && HasSuffix(p, e);
      PatternFromSuffix(p, e);
    }
  }

  /** A path with no dot never has a blocked extension. */
  lemma PatternNeedsDot(p: string, exts: set<string>)
    requires '.' !in p
    ensures !MatchesExtensionPattern(p, exts)
  {
    forall e | e in exts
      ensures !EndsWithExtension(p, e, "") && !EndsWithExtension(p, e, "\n")
    {
      PatternShape(p, e, "");
      PatternShape(p, e, "\n");
    }
  }

  lemma ExampleForeignDomain()
    ensures !IsValid(UrlParts("http", Some("evil.com"), "/page.html"), Allow)
  {
    assert "evil.com" !in AllowedHosts;
    RejectsForeignHost(UrlParts("http", Some("evil.com"), "/page.html"), Allow);
  }

  /** A blocked extension after a dot, at the very end of the path, is caught. */
  lemma BlockedByExtension(p: string, e: string)
    requires e in BlockedExtensions && EndsWithExtension(p, e, "")
    ensures BlockedPath(p)
  {
  }

  lemma PdfIsBlockedExtension()
    ensures "pdf" in BlockedExtensions
  {
  }

  lemma PdfPathEndsWithPdf()
    ensures EndsWithExtension("/x.pdf", "pdf", "")
  {
  }

  lemma PdfPathBlocked()
    ensures BlockedPath("/x.pdf")
  {
    PdfIsBlockedExtension();
    PdfPathEndsWithPdf();
    BlockedByExtension("/x.pdf", "pdf");
  }

  lemma PdfPathIsLowerCase()
    ensures Lower("/x.pdf") == "/x.pdf"
  {
    LowerKeepsLowerCase("/x.pdf");
  }

  lemma ExampleBlockedExtension()
    ensures !IsValid(UrlParts("https", Some("www.ics.uci.edu"), "/x.pdf"), Allow)
  {
    PdfPathIsLowerCase();
    PdfPathBlocked();
    RejectsBlockedExtension(UrlParts("https", Some("www.ics.uci.edu"), "/x.pdf"), Allow);
  }

  lemma NewsPathNotBlocked()
    ensures !BlockedPath("/news")
  {
    assert '.' !in "/news";
    PatternNeedsDot("/news", BlockedExtensions);
  }

  lemma NewsPathIsLowerCase()
    ensures Lower("/news") == "/news"
  {
    LowerKeepsLowerCase("/news");
  }

  lemma ExampleAccepted()
    ensures IsValid(UrlParts("https", Some("www.ics.uci.edu"), "/news"), Allow)
    ensures IsValid(UrlParts("https", Some("www.ics.uci.edu"), "/news"), Error)
  {
    var parts := UrlParts("https", Some("www.ics.uci.edu"), "/news");
    NewsPathIsLowerCase();
    NewsPathNotBlocked();
    assert "www.ics.uci.edu" in AllowedHosts && "https" in Schemes;
    AcceptsWhenAllGatesPass(parts, Allow);
    AcceptsWhenAllGatesPass(parts, Error);
  }
}
