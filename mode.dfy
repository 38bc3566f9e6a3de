/** Scan-mode classification: `scan_subdomain` (GENSCAN.py:60-64) and the
    if/elif chain of `main_scan` (GENSCAN.py:207-215). */
module Mode {
  import opened Text

  /** The placeholder every template carries. */
  const Placeholder: string := "SCAN"

  datatype ScanMode = Subdomain | Directory | Param

  /** `scan_subdomain(url)`, given the URL's network location
      (`urlparse(url).netloc`). Its `"SCAN" in netloc` test adds nothing: the
      prefix test alone decides. */
  function ScanSubdomain(netloc: string): (b: bool)
    ensures b <==> StartsWith(netloc, "SCAN.")
  {
    PrefixHoldsPlaceholder(netloc);
    Contains(netloc, Placeholder) && StartsWith(netloc, "SCAN.")
  }

  lemma PrefixHoldsPlaceholder(netloc: string)
    ensures StartsWith(netloc, "SCAN.") ==> Contains(netloc, Placeholder)
  {
    if StartsWith(netloc, "SCAN.") {
      assert netloc[0..4] == "SCAN";
      assert OccursAt(netloc, Placeholder, 0);
    }
  }

  /** The mode `main_scan` picks for a template whose network location is
      `netloc`: subdomain first, then directory (the whole URL text ends in
      `/SCAN` or `/SCAN/`), then param. */
  function Classify(netloc: string, url: string): (m: ScanMode)
    ensures m == Subdomain <==> StartsWith(netloc, "SCAN.")
    ensures m == Directory <==>
      !StartsWith(netloc, "SCAN.") && (EndsWith(url, "/SCAN") || EndsWith(url, "/SCAN/"))
    ensures m == Param <==>
      !StartsWith(netloc, "SCAN.") && !EndsWith(url, "/SCAN") && !EndsWith(url, "/SCAN/")
  {
    if ScanSubdomain(netloc) then Subdomain
    else if EndsWith(url, "/SCAN") || EndsWith(url, "/SCAN/") then Directory
    else Param
  }
}
