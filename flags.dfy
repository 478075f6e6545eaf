/**
  The flag verifier of the combined application: the submitted text is
  stripped of surrounding whitespace, digested, and compared for equality
  with the digest of each known flag, in table order.

  `digest` stands for SHA-256 of the UTF-8 encoding, as a hex string; it
  is a parameter, so nothing here depends on how it is computed.
*/
module Flags {

  import opened Wrappers

  const SsrfFlag := "CTF{ssrf_0nly_l0calh0st_9000_7c2b3f}"
  const SstiFlag := "CTF{ssti_templ4te_escape_is_0pt1c4l_54d91b}"
  const Invalid := "Invalid flag"
  const ValidPrefix := "Valid flag for: "

  /** `FLAG_HASHES`, in the dictionary's insertion order: label and digest of each flag. */
  function FlagHashes(digest: string -> string): (table: seq<(string, string)>)
    ensures |table| == 2
    ensures table[0] == ("ssrf", digest(SsrfFlag)) && table[1] == ("ssti", digest(SstiFlag))
  {
    [("ssrf", digest(SsrfFlag)), ("ssti", digest(SstiFlag))]
  }

  /** The characters Python's `str.strip()` removes when given no argument (those for which `isspace()` holds). */
  predicate IsSpace(c: char)
  {
    var n := c as int;
    || 0x09 <= n <= 0x0D || 0x1C <= n <= 0x20 || n == 0x85 || n == 0xA0 || n == 0x1680
    || 0x2000 <= n <= 0x200A || n == 0x2028 || n == 0x2029 || n == 0x202F || n == 0x205F || n == 0x3000
  }

  /** `s` with its leading whitespace removed. */
  function TrimStart(s: string): (r: string)
    ensures |r| <= |s| && r == s[|s| - |r|..]
    ensures forall k :: 0 <= k < |s| - |r| ==> IsSpace(s[k])
    ensures r == [] || !IsSpace(r[0])
    decreases |s|
  {
    if s != [] && IsSpace(s[0]) then TrimStart(s[1..]) else s
  }

  /** `s` with its trailing whitespace removed. */
  function TrimEnd(s: string): (r: string)
    ensures |r| <= |s| && r == s[..|r|]
    ensures forall k :: |r| <= k < |s| ==> IsSpace(s[k])
    ensures r == [] || !IsSpace(r[|r| - 1])
    decreases |s|
  {
    if s != [] && IsSpace(s[|s| - 1]) then TrimEnd(s[..|s| - 1]) else s
  }

  /**
    Python's `s.strip()`: the slice of `s` that starts after its leading
    whitespace, neither starts nor ends with whitespace, and leaves only
    whitespace after it.
  */
  function Strip(s: string): (r: string)
    ensures var k := |s| - |TrimStart(s)|;
      && k + |r| <= |s| && r == s[k..k + |r|]
      && (forall j :: 0 <= j < k ==> IsSpace(s[j]))
      && (forall j :: k + |r| <= j < |s| ==> IsSpace(s[j]))
    ensures r == [] || (!IsSpace(r[0]) && !IsSpace(r[|r| - 1]))
  {
    TrimEnd(TrimStart(s))
  }

  lemma TrimStartSkipsOne(c: char, y: string)
    requires IsSpace(c)
    ensures TrimStart([c] + y) == TrimStart(y)
  {
    assert ([c] + y)[1..] == y;
  }

  lemma {:induction false} TrimStartSkipsSpaces(pre: string, x: string)
    requires forall k :: 0 <= k < |pre| ==> IsSpace(pre[k])
    ensures TrimStart(pre + x) == TrimStart(x)
    decreases |pre|
  {
    if pre == [] {
      assert pre + x == x;
    } else {
      var rest := pre[1..];
      assert pre + x == [pre[0]] + (rest + x);
      TrimStartSkipsOne(pre[0], rest + x);
      TrimStartSkipsSpaces(rest, x);
    }
  }

  lemma TrimEndSkipsOne(y: string, c: char)
    requires IsSpace(c)
    ensures TrimEnd(y + [c]) == TrimEnd(y)
  {
    assert (y + [c])[..|y|] == y;
  }

  lemma {:induction false} TrimEndSkipsSpaces(x: string, post: string)
    requires forall k :: 0 <= k < |post| ==> IsSpace(post[k])
    ensures TrimEnd(x + post) == TrimEnd(x)
    decreases |post|
  {
    if post == [] {
      assert x + post == x;
    } else {
      var shorter := post[..|post| - 1];
      assert x + post == (x + shorter) + [post[|post| - 1]];
      TrimEndSkipsOne(x + shorter, post[|post| - 1]);
      TrimEndSkipsSpaces(x, shorter);
    }
  }

  lemma {:induction false} TrimStartAppend(x: string, y: string)
    ensures TrimStart(x) != [] ==> TrimStart(x + y) == TrimStart(x) + y
    ensures TrimStart(x) == [] ==> TrimStart(x + y) == TrimStart(y)
    decreases |x|
  {
    if x == [] {
      assert x + y == y;
    } else if IsSpace(x[0]) {
      assert (x + y)[1..] == x[1..] + y;
      TrimStartAppend(x[1..], y);
    }
  }

  /** Whitespace around a submission makes no difference: `strip()` removes exactly that padding. */
  lemma StripIgnoresPadding(pre: string, s: string, post: string)
    requires forall k :: 0 <= k < |pre| ==> IsSpace(pre[k])
    requires forall k :: 0 <= k < |post| ==> IsSpace(post[k])
    ensures Strip(pre + s + post) == Strip(s)
  {
    assert pre + s + post == pre + (s + post);
    TrimStartSkipsSpaces(pre, s + post);
    TrimStartAppend(s, post);
    if TrimStart(s) != [] {
      TrimEndSkipsSpaces(TrimStart(s), post);
    } else {
      TrimStartSkipsSpaces(post, []);
      assert post + [] == post;
    }
  }

  /** A text that neither starts nor ends with whitespace is its own `strip()`. */
  lemma StripUnpadded(s: string)
    requires s != [] ==> !IsSpace(s[0]) && !IsSpace(s[|s| - 1])
    ensures Strip(s) == s
  {
  }

  /** The index of the first table entry whose digest is `d`: the `next(...)` over the table. */
  function FirstMatch(table: seq<(string, string)>, d: string): (r: Option<nat>)
    ensures r.Some? ==> r.value < |table| && table[r.value].1 == d
    ensures r.Some? ==> forall j :: 0 <= j < r.value ==> table[j].1 != d
    ensures r.None? ==> forall j :: 0 <= j < |table| ==> table[j].1 != d
    decreases |table|
  {
    if table == [] then None
    else if table[0].1 == d then Some(0)
    else
      match FirstMatch(table[1..], d)
      case None => None
      case Some(i) => Some(i + 1)
  }

  /** ASCII upper-casing, as `str.upper()` acts on the table's labels. */
  function UpperChar(c: char): char
  {
    if 'a' <= c <= 'z' then (c as int - 32) as char else c
  }

  function Upper(s: string): (r: string)
    ensures |r| == |s|
    ensures forall i :: 0 <= i < |s| ==> r[i] == UpperChar(s[i])
    decreases |s|
  {
    if s == [] then [] else [UpperChar(s[0])] + Upper(s[1..])
  }

  /**
    The text shown for a submission whose digest is `d`: `matched` is the
    label of the first entry with that digest, and an empty or missing label
    is reported as invalid (Python's `if matched:`).
  */
  function Verdict(table: seq<(string, string)>, d: string): (r: string)
    ensures (forall j :: 0 <= j < |table| ==> table[j].1 != d) ==> r == Invalid
    ensures forall i :: 0 <= i < |table| && table[i].1 == d && (forall j :: 0 <= j < i ==> table[j].1 != d) ==>
      r == if table[i].0 != "" then ValidPrefix + Upper(table[i].0) else Invalid
  {
    match FirstMatch(table, d)
    case Some(i) => if table[i].0 != "" then ValidPrefix + Upper(table[i].0) else Invalid
    case None => Invalid
  }

  /**
    The verdict shown for a submission: the submission is valid for the
    SSRF flag exactly when its stripped digest equals that flag's digest,
    valid for the SSTI flag when it equals that one's instead, and invalid
    otherwise; the comparison is whole-digest equality.
  */
  function FlagResult(flag: string, digest: string -> string): (result: string)
    ensures var d := digest(Strip(flag));
      && (d == digest(SsrfFlag) ==> result == "Valid flag for: SSRF")
      && (d != digest(SsrfFlag) && d == digest(SstiFlag) ==> result == "Valid flag for: SSTI")
      && (d != digest(SsrfFlag) && d != digest(SstiFlag) ==> result == Invalid)
  {
    var d := digest(Strip(flag));
    VerdictOnFlagTable(digest, d);
    Verdict(FlagHashes(digest), d)
  }

  lemma LabelsUpperCased()
    ensures ValidPrefix + Upper("ssrf") == "Valid flag for: SSRF"
    ensures ValidPrefix + Upper("ssti") == "Valid flag for: SSTI"
  {
    assert Upper("ssrf") == "SSRF";
    assert Upper("ssti") == "SSTI";
  }

  /** The verdict for each digest the flag table can be searched for. */
  lemma VerdictOnFlagTable(digest: string -> string, d: string)
    ensures d == digest(SsrfFlag) ==> Verdict(FlagHashes(digest), d) == "Valid flag for: SSRF"
    ensures d != digest(SsrfFlag) && d == digest(SstiFlag) ==> Verdict(FlagHashes(digest), d) == "Valid flag for: SSTI"
    ensures d != digest(SsrfFlag) && d != digest(SstiFlag) ==> Verdict(FlagHashes(digest), d) == Invalid
  {
    var table := FlagHashes(digest);
    assert table[0] == ("ssrf", digest(SsrfFlag)) && table[1] == ("ssti", digest(SstiFlag));
    LabelsUpperCased();
  }

  lemma FlagEnds()
    ensures SsrfFlag[0] == 'C' && SsrfFlag[|SsrfFlag| - 1] == '}'
    ensures SstiFlag[0] == 'C' && SstiFlag[|SstiFlag| - 1] == '}'
    ensures !IsSpace('C') && !IsSpace('}')
  {
  }

  /** Neither known flag starts or ends with whitespace, so each is its own `strip()`. */
  lemma FlagsUnpadded()
    ensures Strip(SsrfFlag) == SsrfFlag && Strip(SstiFlag) == SstiFlag
  {
    var ssrf, ssti := SsrfFlag, SstiFlag;
    FlagEnds();
    StripUnpadded(ssrf);
    StripUnpadded(ssti);
  }

  /** Padding a submission that is its own `strip()` with whitespace does not change the verdict. */
  lemma PaddedSubmission(pre: string, flag: string, post: string, digest: string -> string)
    requires forall k :: 0 <= k < |pre| ==> IsSpace(pre[k])
    requires forall k :: 0 <= k < |post| ==> IsSpace(post[k])
    ensures FlagResult(pre + flag + post, digest) == FlagResult(flag, digest)
  {
    StripIgnoresPadding(pre, flag, post);
  }

  /** The bare SSRF flag is accepted under its own label. */
  lemma SsrfFlagAlone(digest: string -> string)
    ensures FlagResult(SsrfFlag, digest) == "Valid flag for: SSRF"
  {
    FlagsUnpadded();
  }

  /** The bare SSTI flag is accepted under its own label when its digest differs from the SSRF flag's. */
  lemma SstiFlagAlone(digest: string -> string)
    requires digest(SstiFlag) != digest(SsrfFlag)
    ensures FlagResult(SstiFlag, digest) == "Valid flag for: SSTI"
  {
    FlagsUnpadded();
  }

  /** The SSRF flag, with any whitespace around it, is accepted under its own label. */
  lemma SsrfFlagAccepted(pre: string, post: string, digest: string -> string)
    requires forall k :: 0 <= k < |pre| ==> IsSpace(pre[k])
    requires forall k :: 0 <= k < |post| ==> IsSpace(post[k])
    ensures FlagResult(pre + SsrfFlag + post, digest) == "Valid flag for: SSRF"
  {
    SsrfFlagAlone(digest);
    PaddedSubmission(pre, SsrfFlag, post, digest);
  }

  /**
    The SSTI flag, with any whitespace around it, is accepted under its own
    label, provided its digest differs from the SSRF flag's (the table is
    searched in order).
  */
  lemma SstiFlagAccepted(pre: string, post: string, digest: string -> string)
    requires forall k :: 0 <= k < |pre| ==> IsSpace(pre[k])
    requires forall k :: 0 <= k < |post| ==> IsSpace(post[k])
    requires digest(SstiFlag) != digest(SsrfFlag)
    ensures FlagResult(pre + SstiFlag + post, digest) == "Valid flag for: SSTI"
  {
    SstiFlagAlone(digest);
    PaddedSubmission(pre, SstiFlag, post, digest);
  }
}
