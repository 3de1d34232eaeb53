/**
 * The static noise policy. Both cleaning scripts declare the same exact-match
 * set and the same prefix list, and the same `is_noise_path` over them, so
 * they are defined once here.
 */
module Noise {

  import opened Text

  /** Static-resource and CGI roots that are noise as exact matches. */
  const NoisePaths: set<string> := {
    "/images", "/icons", "/htbin", "/cgi-bin", "/cgi", "/bin",
    "/static", "/assets", "/css", "/js", "/fonts", "/media"
  }

  /** Prefixes that make a path noise. There is no "/bin/" entry. */
  const NoisePrefixes: seq<string> := [
    "/images/", "/icons/", "/htbin/", "/cgi-bin/", "/cgi/",
    "/static/", "/assets/", "/css/", "/js/", "/fonts/", "/media/"
  ]

  /** True when the path, stripped of surrounding whitespace, is an exact noise
      root or starts with one of the noise prefixes. */
  predicate IsNoisePath(path: string)
    ensures IsNoisePath(path) ==> |Strip(path)| >= 3 && Strip(path)[0] == '/'
  {
    var p := Strip(path);
    p in NoisePaths || exists k :: 0 <= k < |NoisePrefixes| && NoisePrefixes[k] <= p
  }

  /** Each exact entry is noise. */
  lemma NoiseRootIsNoise(root: string)
    requires root in NoisePaths
    ensures IsNoisePath(root)
  {
    StripUnpadded(root);
  }

  /** Any path whose stripped form starts with a noise prefix is noise,
      whatever follows the prefix. */
  lemma NoisePrefixIsNoise(path: string, k: nat, rest: string)
    requires k < |NoisePrefixes|
    requires Strip(path) == NoisePrefixes[k] + rest
    ensures IsNoisePath(path)
  {
    assert NoisePrefixes[k] <= Strip(path);
  }

  /** Every root except "/bin" has its prefix, the root and a slash. */
  lemma RootPrefix(root: string) returns (k: nat)
    requires root in NoisePaths - {"/bin"}
    ensures k < |NoisePrefixes| && NoisePrefixes[k] == root + "/"
  {
    if root == "/images" { k := 0; }
    else if root == "/icons" { k := 1; }
    else if root == "/htbin" { k := 2; }
    else if root == "/cgi-bin" { k := 3; }
    else if root == "/cgi" { k := 4; }
    else if root == "/static" { k := 5; }
    else if root == "/assets" { k := 6; }
    else if root == "/css" { k := 7; }
    else if root == "/js" { k := 8; }
    else if root == "/fonts" { k := 9; }
    else { k := 10; }
  }

  /** Below every root except "/bin", noise is inherited: `root + "/" + rest`
      is noise for any `rest`, surrounding whitespace included. */
  lemma {:induction false} NoiseBelowRoot(lead: string, root: string, rest: string)
    requires root in NoisePaths - {"/bin"}
    requires forall i :: 0 <= i < |lead| ==> IsSpace(lead[i])
    ensures IsNoisePath(lead + root + "/" + rest)
  {
    var k := RootPrefix(root);
    var s := lead + root + "/" + rest;
    var t := root + "/" + rest;
    TrimStartSkipsSpaces(lead, t);
    assert s == lead + t;
    StripKeepsPrefix(NoisePrefixes[k], t);
    assert TrimStart(t) == t;
  }

  /** Leading whitespace is skipped by `TrimStart` up to the first non-space. */
  lemma {:induction false} TrimStartSkipsSpaces(lead: string, t: string)
    requires forall i :: 0 <= i < |lead| ==> IsSpace(lead[i])
    requires t != [] && !IsSpace(t[0])
    ensures TrimStart(lead + t) == t
  {
    if lead != [] {
      assert (lead + t)[1..] == lead[1..] + t;
      TrimStartSkipsSpaces(lead[1..], t);
    }
  }

  /** The asymmetry the tables encode: "/bin" is noise, "/bin/x" is not. */
  lemma BinAsymmetry()
    ensures IsNoisePath("/bin")
    ensures !IsNoisePath("/bin/x")
  {
    NoiseRootIsNoise("/bin");
    var s := "/bin/x";
    StripUnpadded(s);
    forall k | 0 <= k < |NoisePrefixes| ensures !(NoisePrefixes[k] <= s) {
      assert NoisePrefixes[k][1] != s[1];
    }
    assert |s| == 6;
    assert forall r :: r in NoisePaths ==> |r| != 6 || r[1] != 'b';
  }

  /** The verdict depends only on the stripped form. */
  lemma NoiseOfStripped(path: string)
    ensures IsNoisePath(Strip(path)) == IsNoisePath(path)
  {
    StripIdempotent(path);
  }

}
