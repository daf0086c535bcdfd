/**
 * The URL and slug helpers of the bookmark application (src/utils/urlUtils.ts).
 *
 * All of them are total string functions. The WHATWG URL parser behind
 * `new URL(...)` is not re-implemented: it is a parameter `parse` that either
 * fails (the constructor throws) or yields the parsed protocol and hostname.
 * Slug generation is modelled on ASCII text.
 */
module UrlUtils {
  import opened Wrappers

  // ---------------------------------------------------------------------------
  // Scheme prefixing, normalisation and validation
  // ---------------------------------------------------------------------------

  /** JavaScript's `s.startsWith(prefix)`. */
  predicate StartsWith(s: string, prefix: string) {
    |prefix| <= |s| && s[..|prefix|] == prefix
  }

  const HttpPrefix: string := "http"
  const DefaultScheme: string := "https://"
  const PlaceholderImage: string := "https://dummyimage.com/200x200/efefef/999999&text=No+Image"

  /** What the abstract URL parser returns: a failure (the constructor throws) or the parts used here. */
  datatype ParseResult = ParseFailure | Parsed(protocol: string, hostname: string)

  /**
   * The prefixing rule shared by `isValidUrl` and `normalizeUrl`: a string that
   * does not start with "http" gets "https://" in front of it.
   */
  function WithScheme(url: string): (r: string)
    ensures StartsWith(r, HttpPrefix)
    ensures |url| <= |r| && r[|r| - |url|..] == url
    ensures r == url <==> StartsWith(url, HttpPrefix)
    ensures !StartsWith(url, HttpPrefix) ==> r == DefaultScheme + url
  {
    if StartsWith(url, HttpPrefix) then url else DefaultScheme + url
  }

  /** `normalizeUrl`: empty stays empty; otherwise the scheme is added when the "http" prefix is missing. */
  function NormalizeUrl(url: string): (r: string)
    ensures url == "" ==> r == ""
    ensures url != "" ==> StartsWith(r, HttpPrefix)
    ensures |url| <= |r| && r[|r| - |url|..] == url
    ensures r == url <==> (url == "" || StartsWith(url, HttpPrefix))
    ensures r != url ==> r == DefaultScheme + url
  {
    if url == "" then "" else WithScheme(url)
  }

  /** Normalising twice is normalising once. */
  lemma NormalizeUrlIdempotent(url: string)
    ensures NormalizeUrl(NormalizeUrl(url)) == NormalizeUrl(url)
  {
  }

  /** The prefix test is a plain string prefix test: "httpfoo" is already "normal". */
  lemma NormalizeKeepsHttpLookalike()
    ensures NormalizeUrl("httpfoo") == "httpfoo"
    ensures NormalizeUrl("example.com") == "https://example.com"
  {
    HttpLookalikeHasPrefix();
    ExampleLacksPrefix();
  }

  lemma HttpLookalikeHasPrefix()
    ensures StartsWith("httpfoo", HttpPrefix)
  {
    assert "httpfoo"[..4] == "http";
  }

  lemma ExampleLacksPrefix()
    ensures !StartsWith("example.com", HttpPrefix)
    ensures DefaultScheme + "example.com" == "https://example.com"
  {
    assert "example.com"[0] == 'e';
  }

  /** The protocols `isValidUrl` accepts. */
  predicate IsWebProtocol(protocol: string) {
    protocol == "http:" || protocol == "https:"
  }

  /**
   * `isValidUrl`: prefix, parse, and accept only an http or https protocol.
   * A parse failure is caught and answered with false.
   */
  function IsValidUrl(url: string, parse: string -> ParseResult): (ok: bool)
    ensures ok ==> parse(WithScheme(url)).Parsed?
    ensures ok <==> parse(WithScheme(url)).Parsed? && IsWebProtocol(parse(WithScheme(url)).protocol)
  {
    match parse(WithScheme(url))
    case ParseFailure => false
    case Parsed(protocol, _) => IsWebProtocol(protocol)
  }

  /** For non-empty input, `isValidUrl` parses exactly the string `normalizeUrl` produces. */
  lemma IsValidUrlTestsNormalized(url: string, parse: string -> ParseResult)
    requires url != ""
    ensures IsValidUrl(url, parse) <==>
              parse(NormalizeUrl(url)).Parsed? && IsWebProtocol(parse(NormalizeUrl(url)).protocol)
  {
  }

  /** Unlike `normalizeUrl`, `isValidUrl` prefixes the empty string too: it judges the parse of "https://". */
  lemma IsValidUrlEmpty(parse: string -> ParseResult)
    ensures IsValidUrl("", parse) <==> parse("https://").Parsed? && IsWebProtocol(parse("https://").protocol)
  {
    assert DefaultScheme + "" == "https://";
  }

  /**
   * A string without the "http" prefix always reaches the parser behind "https://",
   * so its own scheme is never what is checked: whenever the parser reads the
   * prefixed string as an https URL (as the WHATWG parser does with
   * "https://ftp://x.com", host "ftp" and an empty port), the input is accepted.
   */
  lemma ForeignSchemeAccepted(parse: string -> ParseResult)
    requires parse("https://ftp://x.com").Parsed? && parse("https://ftp://x.com").protocol == "https:"
    ensures IsValidUrl("ftp://x.com", parse)
  {
    assert !StartsWith("ftp://x.com", HttpPrefix) by {
      assert "ftp://x.com"[0] == 'f';
    }
    assert DefaultScheme + "ftp://x.com" == "https://ftp://x.com";
  }

  /** The metadata the stub extractor returns. */
  datatype Metadata = Metadata(title: Option<string>, description: Option<string>, image: Option<string>)

  /**
   * `extractUrlMetadata`: the hostname of the normalised URL as title, no
   * description, the fixed placeholder image. `None` stands for the rejected
   * promise when the normalised URL does not parse.
   */
  function ExtractUrlMetadata(url: string, parse: string -> ParseResult): (r: Option<Metadata>)
    ensures r.Some? <==> parse(NormalizeUrl(url)).Parsed?
    ensures r.Some? ==> r.value.description == None && r.value.image == Some(PlaceholderImage)
    ensures r.Some? ==> r.value.title == Some(parse(NormalizeUrl(url)).hostname)
  {
    match parse(NormalizeUrl(url))
    case ParseFailure => None
    case Parsed(_, hostname) => Some(Metadata(Some(hostname), None, Some(PlaceholderImage)))
  }

  // ---------------------------------------------------------------------------
  // Character classes (ASCII)
  // ---------------------------------------------------------------------------

  /** `\s` and the characters `trim` removes, restricted to ASCII: tab, LF, VT, FF, CR and space. */
  predicate IsSpace(c: char) {
    c == ' ' || ('\t' <= c <= '\r')
  }

  predicate IsUpper(c: char) {
    'A' <= c <= 'Z'
  }

  /** `\w` without the `u` flag: ASCII letters, digits and underscore. */
  predicate IsWordChar(c: char) {
    'a' <= c <= 'z' || 'A' <= c <= 'Z' || '0' <= c <= '9' || c == '_'
  }

  /** The characters the removal step keeps: `[\w\-]`. */
  predicate IsKept(c: char) {
    IsWordChar(c) || c == '-'
  }

  /** The characters a generated slug is made of: `[a-z0-9_-]`. */
  predicate IsSlugChar(c: char) {
    'a' <= c <= 'z' || '0' <= c <= '9' || c == '_' || c == '-'
  }

  predicate NoUpper(s: string) {
    forall i :: 0 <= i < |s| ==> !IsUpper(s[i])
  }

  predicate NoSpace(s: string) {
    forall i :: 0 <= i < |s| ==> !IsSpace(s[i])
  }

  predicate AllKept(s: string) {
    forall i :: 0 <= i < |s| ==> IsKept(s[i])
  }

  predicate AllSlugChars(s: string) {
    forall i :: 0 <= i < |s| ==> IsSlugChar(s[i])
  }

  /** The characters of `s` other than whitespace and hyphens, in order. */
  function NonSeparators(s: string): string {
    if s == [] then []
    else if IsSpace(s[0]) || s[0] == '-' then NonSeparators(s[1..])
    else [s[0]] + NonSeparators(s[1..])
  }

  /** The characters of `s` other than hyphens, in order. */
  function NonHyphens(s: string): string {
    if s == [] then []
    else if s[0] == '-' then NonHyphens(s[1..])
    else [s[0]] + NonHyphens(s[1..])
  }

  /** No two adjacent hyphens. */
  predicate NoDoubleHyphen(s: string) {
    forall i :: 0 <= i < |s| - 1 ==> !(s[i] == '-' && s[i + 1] == '-')
  }

  // ---------------------------------------------------------------------------
  // The five steps of generateSlug
  // ---------------------------------------------------------------------------

  function LowerChar(c: char): (d: char)
    ensures !IsUpper(d)
    ensures !IsUpper(c) ==> d == c
    ensures IsWordChar(c) <==> IsWordChar(d)
    ensures IsUpper(c) ==> 'a' <= d <= 'z' && d as int - 'a' as int == c as int - 'A' as int
  {
    if IsUpper(c) then (c as int + 32) as char else c
  }

  /** Step 1, `toLowerCase` on ASCII. */
  function Lower(s: string): (r: string)
    ensures |r| == |s| && NoUpper(r)
    ensures forall i :: 0 <= i < |s| ==> r[i] == LowerChar(s[i])
  {
    seq(|s|, i requires 0 <= i < |s| => LowerChar(s[i]))
  }

  /** Lower-casing changes nothing in a string without capitals. */
  lemma LowerIdentity(s: string)
    requires NoUpper(s)
    ensures Lower(s) == s
  {
    assert forall i :: 0 <= i < |s| ==> Lower(s)[i] == s[i];
  }

  /** Removes leading whitespace. */
  function TrimStart(s: string): (r: string)
    ensures |r| <= |s| && r == s[|s| - |r|..]
    ensures forall i :: 0 <= i < |s| - |r| ==> IsSpace(s[i])
    ensures r != [] ==> !IsSpace(r[0])
    ensures NonSeparators(r) == NonSeparators(s)
  {
    if s != [] && IsSpace(s[0]) then
      var rest := s[1..];
      assert forall i :: 1 <= i < |s| ==> s[i] == rest[i - 1];
      assert NonSeparators(s) == NonSeparators(rest);
      TrimStart(rest)
    else s
  }

  /** A run of whitespace in front of a string that starts with something else is removed exactly. */
  lemma {:induction false} TrimStartRun(w: string, b: string)
    requires forall i :: 0 <= i < |w| ==> IsSpace(w[i])
    requires b == [] || !IsSpace(b[0])
    ensures TrimStart(w + b) == b
    decreases |w|
  {
    if w == [] {
      assert w + b == b;
    } else {
      assert (w + b)[1..] == w[1..] + b;
      TrimStartRun(w[1..], b);
    }
  }

  /** Removing leading whitespace stops inside a string that ends with something else. */
  lemma {:induction false} TrimStartConcat(a: string, b: string)
    requires a != [] && !IsSpace(a[|a| - 1])
    ensures TrimStart(a + b) == TrimStart(a) + b
    decreases |a|
  {
    assert (a + b)[0] == a[0];
    if IsSpace(a[0]) {
      assert (a + b)[1..] == a[1..] + b;
      TrimStartConcat(a[1..], b);
    }
  }

  /** Removes trailing whitespace. */
  function TrimEnd(s: string): (r: string)
    ensures |r| <= |s| && r == s[..|r|]
    ensures forall i :: |r| <= i < |s| ==> IsSpace(s[i])
    ensures r != [] ==> !IsSpace(r[|r| - 1])
  {
    if s != [] && IsSpace(s[|s| - 1]) then TrimEnd(s[..|s| - 1]) else s
  }

  /** Step 2, `trim`: neither end of the result is whitespace. */
  function Trim(s: string): (r: string)
    ensures r == [] || (!IsSpace(r[0]) && !IsSpace(r[|r| - 1]))
    ensures NoUpper(s) ==> NoUpper(r)
  {
    TrimEnd(TrimStart(s))
  }

  /**
   * What `trim` keeps is a slice `s[a..a + |Trim(s)|]`, and everything
   * outside that slice is whitespace.
   */
  lemma TrimSlice(s: string) returns (a: nat)
    ensures a + |Trim(s)| <= |s| && Trim(s) == s[a..a + |Trim(s)|]
    ensures forall i :: 0 <= i < a ==> IsSpace(s[i])
    ensures forall i :: a + |Trim(s)| <= i < |s| ==> IsSpace(s[i])
  {
    var t := TrimStart(s);
    a := |s| - |t|;
    PrefixOfSuffix(s, t, TrimEnd(t), a);
  }

  /** A prefix `r` of the suffix `t == s[a..]` is the slice `s[a..a + |r|]`, and what `r` leaves of `t` is what it leaves of `s`. */
  lemma PrefixOfSuffix(s: string, t: string, r: string, a: nat)
    requires a <= |s| && t == s[a..] && |r| <= |t| && r == t[..|r|]
    requires forall i :: |r| <= i < |t| ==> IsSpace(t[i])
    ensures r == s[a..a + |r|]
    ensures forall i :: a + |r| <= i < |s| ==> IsSpace(s[i])
  {
    assert forall i :: a + |r| <= i < |s| ==> s[i] == t[i - a];
  }

  /** A string that neither starts nor ends with whitespace is its own trim. */
  lemma TrimIdentity(s: string)
    requires s == [] || (!IsSpace(s[0]) && !IsSpace(s[|s| - 1]))
    ensures Trim(s) == s
  {
  }

  /** Step 3, `replace(/\s+/g, '-')`: every maximal run of whitespace becomes one hyphen. */
  function HyphenateSpaces(s: string): (r: string)
    ensures NoSpace(r)
    ensures NonSeparators(r) == NonSeparators(s)
    ensures r == [] <==> s == []
    decreases |s|
  {
    if s == [] then []
    else if IsSpace(s[0]) then "-" + HyphenateSpaces(TrimStart(s[1..]))
    else [s[0]] + HyphenateSpaces(s[1..])
  }

  /** Hyphenating whitespace changes nothing in a string without whitespace. */
  lemma {:induction false} HyphenateSpacesIdentity(s: string)
    requires NoSpace(s)
    ensures HyphenateSpaces(s) == s
    decreases |s|
  {
    if s != [] {
      assert NoSpace(s[1..]);
      HyphenateSpacesIdentity(s[1..]);
    }
  }

  /** Hyphenating works part by part across a boundary that is not inside a whitespace run. */
  lemma {:induction false} HyphenateSpacesConcat(a: string, x: string)
    requires a == [] || !IsSpace(a[|a| - 1])
    ensures HyphenateSpaces(a + x) == HyphenateSpaces(a) + HyphenateSpaces(x)
    decreases |a|
  {
    if a == [] {
      assert a + x == x;
    } else {
      var rest := a[1..];
      assert (a + x)[0] == a[0] && (a + x)[1..] == rest + x;
      if IsSpace(a[0]) {
        assert rest[|rest| - 1] == a[|a| - 1];
        var t := TrimStart(rest);
        TrimStartConcat(rest, x);
        assert t[|t| - 1] == rest[|rest| - 1];
        HyphenateSpacesConcat(t, x);
        ConcatAssoc("-", HyphenateSpaces(t), HyphenateSpaces(x));
      } else {
        HyphenateSpacesConcat(rest, x);
        ConcatAssoc([a[0]], HyphenateSpaces(rest), HyphenateSpaces(x));
      }
    }
  }

  /** A maximal run of whitespace between two parts becomes exactly one hyphen, and the parts are hyphenated on their own. */
  lemma HyphenateSpacesSplit(a: string, w: string, b: string)
    requires w != [] && forall i :: 0 <= i < |w| ==> IsSpace(w[i])
    requires a == [] || !IsSpace(a[|a| - 1])
    requires b == [] || !IsSpace(b[0])
    ensures HyphenateSpaces(a + w + b) == HyphenateSpaces(a) + "-" + HyphenateSpaces(b)
  {
    assert HyphenateSpaces(w + b) == "-" + HyphenateSpaces(b) by {
      assert IsSpace((w + b)[0]) && (w + b)[1..] == w[1..] + b;
      TrimStartRun(w[1..], b);
    }
    HyphenateSpacesConcat(a, w + b);
    ConcatAssoc(a, w, b);
    ConcatAssoc(HyphenateSpaces(a), "-", HyphenateSpaces(b));
  }

  lemma ConcatAssoc(x: string, y: string, z: string)
    ensures x + y + z == x + (y + z)
  {
  }

  /** Hyphenating whitespace introduces no upper-case letter. */
  lemma {:induction false} HyphenateSpacesNoUpper(s: string)
    requires NoUpper(s)
    ensures NoUpper(HyphenateSpaces(s))
    decreases |s|
  {
    if s != [] {
      var rest := s[1..];
      assert NoUpper(rest);
      if IsSpace(s[0]) {
        var t := TrimStart(rest);
        NoUpperSuffix(rest, |rest| - |t|);
        HyphenateSpacesNoUpper(t);
        assert HyphenateSpaces(s) == "-" + HyphenateSpaces(t);
      } else {
        HyphenateSpacesNoUpper(rest);
        assert HyphenateSpaces(s) == [s[0]] + HyphenateSpaces(rest);
      }
    }
  }

  /** A suffix of a string without capitals has none either. */
  lemma NoUpperSuffix(s: string, k: nat)
    requires NoUpper(s) && k <= |s|
    ensures NoUpper(s[k..])
  {
  }

  /** No two adjacent whitespace characters. */
  predicate NoDoubleSpace(s: string) {
    forall i :: 0 <= i < |s| - 1 ==> !(IsSpace(s[i]) && IsSpace(s[i + 1]))
  }

  /** Each whitespace character replaced by a hyphen, one for one. */
  function SpacesToHyphens(s: string): (r: string)
    ensures |r| == |s|
  {
    seq(|s|, i requires 0 <= i < |s| => if IsSpace(s[i]) then '-' else s[i])
  }

  /** Where whitespace never comes in runs, hyphenating replaces each whitespace character by one hyphen. */
  lemma {:induction false} HyphenateSingleSpaces(s: string)
    requires NoDoubleSpace(s)
    ensures HyphenateSpaces(s) == SpacesToHyphens(s)
    decreases |s|
  {
    if s != [] {
      assert NoDoubleSpace(s[1..]);
      if IsSpace(s[0]) {
        assert TrimStart(s[1..]) == s[1..] by {
          if s[1..] != [] { assert !IsSpace(s[1]); }
        }
      }
      HyphenateSingleSpaces(s[1..]);
      assert SpacesToHyphens(s) == [if IsSpace(s[0]) then '-' else s[0]] + SpacesToHyphens(s[1..]);
    }
  }

  /** Step 4, `replace(/[^\w\-]+/g, '')`: every character outside `[\w\-]` is deleted. */
  function RemoveNonWord(s: string): (r: string)
    ensures |r| <= |s| && AllKept(r)
    ensures NoUpper(s) ==> NoUpper(r)
  {
    if s == [] then []
    else if IsKept(s[0]) then [s[0]] + RemoveNonWord(s[1..])
    else RemoveNonWord(s[1..])
  }

  /** Removal changes nothing in a string made of kept characters. */
  lemma {:induction false} RemoveNonWordIdentity(s: string)
    requires AllKept(s)
    ensures RemoveNonWord(s) == s
    decreases |s|
  {
    if s != [] {
      assert AllKept(s[1..]);
      RemoveNonWordIdentity(s[1..]);
    }
  }

  /** Removal deletes a string of symbols entirely. */
  lemma {:induction false} RemovedSymbols(w: string)
    requires forall i :: 0 <= i < |w| ==> !IsKept(w[i])
    ensures RemoveNonWord(w) == ""
    decreases |w|
  {
    if w != [] {
      RemovedSymbols(w[1..]);
    }
  }

  /** Character removal works character by character, so it distributes over concatenation. */
  lemma {:induction false} RemoveNonWordConcat(a: string, b: string)
    ensures RemoveNonWord(a + b) == RemoveNonWord(a) + RemoveNonWord(b)
    decreases |a|
  {
    if a == [] {
      assert a + b == b;
    } else {
      assert (a + b)[0] == a[0] && (a + b)[1..] == a[1..] + b;
      RemoveNonWordConcat(a[1..], b);
      if IsKept(a[0]) {
        calc {
          RemoveNonWord(a + b);
          [a[0]] + RemoveNonWord(a[1..] + b);
          [a[0]] + (RemoveNonWord(a[1..]) + RemoveNonWord(b));
          ([a[0]] + RemoveNonWord(a[1..])) + RemoveNonWord(b);
        }
      }
    }
  }

  /** Removes leading hyphens. */
  function DropHyphens(s: string): (r: string)
    ensures |r| <= |s| && r == s[|s| - |r|..]
    ensures r != [] ==> r[0] != '-'
    ensures forall i :: 0 <= i < |s| - |r| ==> s[i] == '-'
    ensures s != [] && s[0] != '-' ==> r == s
    ensures NonHyphens(r) == NonHyphens(s)
  {
    if s != [] && s[0] == '-' then
      var rest := s[1..];
      assert forall i :: 1 <= i < |s| ==> s[i] == rest[i - 1];
      assert NonHyphens(s) == NonHyphens(rest);
      DropHyphens(rest)
    else s
  }

  /** A run of hyphens in front of a string that starts with something else is removed exactly. */
  lemma {:induction false} DropHyphensRun(h: string, b: string)
    requires forall i :: 0 <= i < |h| ==> h[i] == '-'
    requires b == [] || b[0] != '-'
    ensures DropHyphens(h + b) == b
    decreases |h|
  {
    if h == [] {
      assert h + b == b;
    } else {
      assert (h + b)[1..] == h[1..] + b;
      DropHyphensRun(h[1..], b);
    }
  }

  /** Removing leading hyphens stops inside a string that ends with something else. */
  lemma {:induction false} DropHyphensConcat(a: string, b: string)
    requires a != [] && a[|a| - 1] != '-'
    ensures DropHyphens(a + b) == DropHyphens(a) + b
    decreases |a|
  {
    assert (a + b)[0] == a[0];
    if a[0] == '-' {
      assert (a + b)[1..] == a[1..] + b;
      DropHyphensConcat(a[1..], b);
    }
  }

  /**
   * Step 5, `replace(/\-\-+/g, '-')`: every run of two or more hyphens becomes
   * one hyphen (a single hyphen stays as it is, so every maximal run ends up as one).
   */
  function CollapseHyphens(s: string): (r: string)
    ensures |r| <= |s|
    ensures s != [] ==> r != [] && r[0] == s[0]
    ensures NoDoubleHyphen(r)
    ensures NonHyphens(r) == NonHyphens(s)
    ensures AllSlugChars(s) ==> AllSlugChars(r)
    decreases |s|
  {
    if s == [] then []
    else if s[0] == '-' then
      var tail := CollapseHyphens(DropHyphens(s[1..]));
      assert NonHyphens("-" + tail) == NonHyphens(tail);
      "-" + tail
    else
      var tail := CollapseHyphens(s[1..]);
      assert NonHyphens([s[0]] + tail) == [s[0]] + NonHyphens(tail);
      [s[0]] + tail
  }

  /** Collapsing changes nothing in a string without a double hyphen. */
  lemma {:induction false} CollapseHyphensIdentity(s: string)
    requires NoDoubleHyphen(s)
    ensures CollapseHyphens(s) == s
    decreases |s|
  {
    if s != [] {
      assert NoDoubleHyphen(s[1..]);
      if s[0] == '-' && s[1..] != [] {
        assert s[1] != '-';
      }
      CollapseHyphensIdentity(s[1..]);
    }
  }

  /** Collapsing works part by part across a boundary that is not inside a hyphen run. */
  lemma {:induction false} CollapseHyphensConcat(a: string, x: string)
    requires a == [] || a[|a| - 1] != '-'
    ensures CollapseHyphens(a + x) == CollapseHyphens(a) + CollapseHyphens(x)
    decreases |a|
  {
    if a == [] {
      assert a + x == x;
    } else {
      var rest := a[1..];
      assert (a + x)[0] == a[0] && (a + x)[1..] == rest + x;
      if a[0] == '-' {
        assert rest[|rest| - 1] == a[|a| - 1];
        var t := DropHyphens(rest);
        DropHyphensConcat(rest, x);
        assert t[|t| - 1] == rest[|rest| - 1];
        CollapseHyphensConcat(t, x);
        ConcatAssoc("-", CollapseHyphens(t), CollapseHyphens(x));
      } else {
        CollapseHyphensConcat(rest, x);
        ConcatAssoc([a[0]], CollapseHyphens(rest), CollapseHyphens(x));
      }
    }
  }

  /** A maximal run of hyphens between two parts becomes exactly one hyphen, and the parts are collapsed on their own. */
  lemma CollapseHyphensSplit(a: string, h: string, b: string)
    requires h != [] && forall i :: 0 <= i < |h| ==> h[i] == '-'
    requires a == [] || a[|a| - 1] != '-'
    requires b == [] || b[0] != '-'
    ensures CollapseHyphens(a + h + b) == CollapseHyphens(a) + "-" + CollapseHyphens(b)
  {
    assert CollapseHyphens(h + b) == "-" + CollapseHyphens(b) by {
      assert (h + b)[0] == '-' && (h + b)[1..] == h[1..] + b;
      DropHyphensRun(h[1..], b);
    }
    CollapseHyphensConcat(a, h + b);
    ConcatAssoc(a, h, b);
    ConcatAssoc(CollapseHyphens(a), "-", CollapseHyphens(b));
  }

  /** `generateSlug`: lower-case, trim, hyphenate whitespace runs, delete other characters, collapse hyphens. */
  function GenerateSlug(text: string): (slug: string)
    ensures AllSlugChars(slug) && NoDoubleHyphen(slug)
    ensures NoSpace(slug) && NoUpper(slug)
  {
    var trimmed := Trim(Lower(text));
    HyphenateSpacesNoUpper(trimmed);
    CollapseHyphens(RemoveNonWord(HyphenateSpaces(trimmed)))
  }

  /** `generateSlug` as the composition of its five steps. */
  lemma GenerateSlugSteps(text: string, trimmed: string, spaced: string, kept: string)
    requires Trim(Lower(text)) == trimmed
    requires HyphenateSpaces(trimmed) == spaced
    requires RemoveNonWord(spaced) == kept
    ensures GenerateSlug(text) == CollapseHyphens(kept)
  {
  }

  /** A string made of slug characters with no double hyphen is its own slug. */
  lemma SlugIsFixpoint(s: string)
    requires AllSlugChars(s) && NoDoubleHyphen(s)
    ensures GenerateSlug(s) == s
  {
    assert NoUpper(s) && NoSpace(s) && AllKept(s) by {
      forall i | 0 <= i < |s| ensures !IsUpper(s[i]) && !IsSpace(s[i]) && IsKept(s[i]) {
        assert IsSlugChar(s[i]);
      }
    }
    LowerIdentity(s);
    TrimIdentity(s);
    HyphenateSpacesIdentity(s);
    RemoveNonWordIdentity(s);
    CollapseHyphensIdentity(s);
    GenerateSlugSteps(s, s, s, s);
  }

  /** `generateSlug` is idempotent. */
  lemma GenerateSlugIdempotent(text: string)
    ensures GenerateSlug(GenerateSlug(text)) == GenerateSlug(text)
  {
    SlugIsFixpoint(GenerateSlug(text));
  }

  // Worked examples. Every step of the pipeline is evaluated in a lemma of its
  // own: evaluating several steps on literals in one proof is too costly.

  /** "My Awesome List!" gives "my-awesome-list". */
  lemma GenerateSlugTitleExample()
    ensures GenerateSlug("My Awesome List!") == "my-awesome-list"
  {
    TitleLowered();
    TitleHyphenated();
    TitleKept();
    TitleCollapsed();
    GenerateSlugSteps("My Awesome List!", "my awesome list!", "my-awesome-list!", "my-awesome-list");
  }

  lemma TitleLowered()
    ensures Trim(Lower("My Awesome List!")) == "my awesome list!"
  {
    TitleLowerCased();
    TrimIdentity("my awesome list!");
  }

  lemma TitleLowerCased()
    ensures Lower("My Awesome List!") == "my awesome list!"
  {
  }

  lemma TitleHyphenated()
    ensures HyphenateSpaces("my awesome list!") == "my-awesome-list!"
  {
    TitleSpacesSingle();
    HyphenateSingleSpaces("my awesome list!");
  }

  lemma TitleSpacesSingle()
    ensures NoDoubleSpace("my awesome list!")
    ensures SpacesToHyphens("my awesome list!") == "my-awesome-list!"
  {
  }

  lemma TitleKept()
    ensures RemoveNonWord("my-awesome-list!") == "my-awesome-list"
  {
    TitleWordKept();
    BangRemoved();
    TitleSplit();
    RemoveNonWordConcat("my-awesome-list", "!");
  }

  lemma TitleWordKept()
    ensures RemoveNonWord("my-awesome-list") == "my-awesome-list"
  {
    assert AllKept("my-awesome-list");
    RemoveNonWordIdentity("my-awesome-list");
  }

  lemma BangRemoved()
    ensures RemoveNonWord("!") == ""
  {
  }

  lemma TitleSplit()
    ensures "my-awesome-list!" == "my-awesome-list" + "!"
  {
  }

  lemma TitleCollapsed()
    ensures CollapseHyphens("my-awesome-list") == "my-awesome-list"
  {
    assert NoDoubleHyphen("my-awesome-list");
    CollapseHyphensIdentity("my-awesome-list");
  }

  /** "  a   b  " gives "a-b": the outer whitespace is trimmed, the inner run becomes one hyphen. */
  lemma GenerateSlugSpacesExample()
    ensures GenerateSlug("  a   b  ") == "a-b"
  {
    SpacesTrimmed();
    SpacesHyphenated();
    SpacesKept();
    SpacesCollapsed();
    GenerateSlugSteps("  a   b  ", "a   b", "a-b", "a-b");
  }

  lemma SpacesTrimmed()
    ensures Trim(Lower("  a   b  ")) == "a   b"
  {
    SpacesLowerCased();
    SpacesTrimmedStart();
    SpacesTrimmedEnd();
  }

  lemma SpacesLowerCased()
    ensures Lower("  a   b  ") == "  a   b  "
  {
    assert NoUpper("  a   b  ");
    LowerIdentity("  a   b  ");
  }

  lemma SpacesTrimmedStart()
    ensures TrimStart("  a   b  ") == "a   b  "
  {
    assert "  a   b  " == "  " + "a   b  ";
    TrimStartRun("  ", "a   b  ");
  }

  lemma SpacesTrimmedEnd()
    ensures TrimEnd("a   b  ") == "a   b"
  {
    assert "a   b  "[..6] == "a   b ";
    assert "a   b "[..5] == "a   b";
  }

  lemma SpacesHyphenated()
    ensures HyphenateSpaces("a   b") == "a-b"
  {
    SpacesRun();
    HyphenateSpacesSplit("a", "   ", "b");
    SpacesWords();
  }

  lemma SpacesRun()
    ensures "a   b" == "a" + "   " + "b"
    ensures forall i :: 0 <= i < |"   "| ==> IsSpace("   "[i])
  {
  }

  lemma SpacesWords()
    ensures HyphenateSpaces("a") == "a" && HyphenateSpaces("b") == "b"
  {
    assert NoSpace("a") && NoSpace("b");
    HyphenateSpacesIdentity("a");
    HyphenateSpacesIdentity("b");
  }

  lemma SpacesKept()
    ensures RemoveNonWord("a-b") == "a-b"
  {
    assert AllKept("a-b");
    RemoveNonWordIdentity("a-b");
  }

  lemma SpacesCollapsed()
    ensures CollapseHyphens("a-b") == "a-b"
  {
    assert NoDoubleHyphen("a-b");
    CollapseHyphensIdentity("a-b");
  }

  /** "!!!" gives the empty slug. */
  lemma GenerateSlugEmptyExample()
    ensures GenerateSlug("!!!") == ""
  {
    EmptyLowered();
    EmptyHyphenated();
    EmptyKept();
    GenerateSlugSteps("!!!", "!!!", "!!!", "");
  }

  lemma EmptyLowered()
    ensures Trim(Lower("!!!")) == "!!!"
  {
    EmptyLowerCased();
    TrimIdentity("!!!");
  }

  lemma EmptyLowerCased()
    ensures Lower("!!!") == "!!!"
  {
    assert NoUpper("!!!");
    LowerIdentity("!!!");
  }

  lemma EmptyHyphenated()
    ensures HyphenateSpaces("!!!") == "!!!"
  {
    assert NoSpace("!!!");
    HyphenateSpacesIdentity("!!!");
  }

  lemma EmptyKept()
    ensures RemoveNonWord("!!!") == ""
  {
    assert forall i :: 0 <= i < |"!!!"| ==> !IsKept("!!!"[i]);
    RemovedSymbols("!!!");
  }

  /** "a !" gives "a-": a slug may end with a hyphen. */
  lemma GenerateSlugTrailingHyphenExample()
    ensures GenerateSlug("a !") == "a-"
  {
    TrailingLowered();
    TrailingHyphenated();
    TrailingKept();
    TrailingCollapsed();
    GenerateSlugSteps("a !", "a !", "a-!", "a-");
  }

  lemma TrailingLowered()
    ensures Trim(Lower("a !")) == "a !"
  {
    TrailingLowerCased();
    TrimIdentity("a !");
  }

  lemma TrailingLowerCased()
    ensures Lower("a !") == "a !"
  {
    assert NoUpper("a !");
    LowerIdentity("a !");
  }

  lemma TrailingHyphenated()
    ensures HyphenateSpaces("a !") == "a-!"
  {
    TrailingSpacesSingle();
    HyphenateSingleSpaces("a !");
  }

  lemma TrailingSpacesSingle()
    ensures NoDoubleSpace("a !")
    ensures SpacesToHyphens("a !") == "a-!"
  {
  }

  lemma TrailingKept()
    ensures RemoveNonWord("a-!") == "a-"
  {
    TrailingWordKept();
    BangRemoved();
    TrailingSplit();
    RemoveNonWordConcat("a-", "!");
  }

  lemma TrailingWordKept()
    ensures RemoveNonWord("a-") == "a-"
  {
    assert AllKept("a-");
    RemoveNonWordIdentity("a-");
  }

  lemma TrailingSplit()
    ensures "a-!" == "a-" + "!"
  {
  }

  lemma TrailingCollapsed()
    ensures CollapseHyphens("a-") == "a-"
  {
    assert NoDoubleHyphen("a-");
    CollapseHyphensIdentity("a-");
  }
}
