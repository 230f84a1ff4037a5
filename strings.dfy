/** The three java.lang.String operations the handlers rely on: trim(),
    toLowerCase() and contains(). */
module JavaStrings {

  /** String.trim() removes every leading and trailing character whose code
      point is at most U+0020 (space and the control characters). */
  predicate IsTrimmed(c: char) {
    c <= ' '
  }

  function TrimStart(s: string): (r: string)
    ensures |r| <= |s| && r == s[|s| - |r|..]
    ensures r == [] || !IsTrimmed(r[0])
    ensures forall k :: 0 <= k < |s| - |r| ==> IsTrimmed(s[k])
  {
    if |s| > 0 && IsTrimmed(s[0]) then TrimStart(s[1..]) else s
  }

  function TrimEnd(s: string): (r: string)
    ensures |r| <= |s| && r == s[..|r|]
    ensures r == [] || !IsTrimmed(r[|r| - 1])
    ensures forall k :: |r| <= k < |s| ==> IsTrimmed(s[k])
  {
    if |s| > 0 && IsTrimmed(s[|s| - 1]) then TrimEnd(s[..|s| - 1]) else s
  }

  function Trim(s: string): string {
    TrimEnd(TrimStart(s))
  }

  /** TrimStart cuts s at lo: all before is trimmable, s[lo] is not. */
  lemma TrimStartSlice(s: string) returns (lo: nat)
    ensures lo <= |s| && TrimStart(s) == s[lo..]
    ensures forall k :: 0 <= k < lo ==> IsTrimmed(s[k])
    ensures lo < |s| ==> !IsTrimmed(s[lo])
  {
    var t := TrimStart(s);
    lo := |s| - |t|;
    if lo < |s| {
      assert s[lo] == t[0];
    }
  }

  /** TrimEnd of the suffix s[lo..] is the slice s[lo..hi]: all after it is
      trimmable, and s[hi - 1] is not. */
  lemma TrimEndOfSuffix(s: string, lo: nat) returns (hi: nat)
    requires lo <= |s|
    ensures lo <= hi <= |s| && TrimEnd(s[lo..]) == s[lo..hi]
    ensures forall k :: hi <= k < |s| ==> IsTrimmed(s[k])
    ensures lo < hi ==> !IsTrimmed(s[hi - 1])
  {
    var t := s[lo..];
    var e := TrimEnd(t);
    hi := lo + |e|;
    assert e == t[..|e|] == s[lo..hi];
    forall k | hi <= k < |s| ensures IsTrimmed(s[k]) {
      assert s[k] == t[k - lo];
    }
    if lo < hi {
      assert s[hi - 1] == e[|e| - 1];
    }
  }

  /** The trimmed string is the slice s[lo..hi]; everything cut off on
      either side is trimmable, and the slice neither starts nor ends with a
      trimmable character. */
  lemma TrimIsSlice(s: string) returns (lo: nat, hi: nat)
    ensures lo <= hi <= |s| && Trim(s) == s[lo..hi]
    ensures forall k :: 0 <= k < lo ==> IsTrimmed(s[k])
    ensures forall k :: hi <= k < |s| ==> IsTrimmed(s[k])
    ensures lo < hi ==> !IsTrimmed(s[lo]) && !IsTrimmed(s[hi - 1])
  {
    lo := TrimStartSlice(s);
    hi := TrimEndOfSuffix(s, lo);
  }

  /** The trimmed text is empty exactly when every character is trimmable:
      this is the guard "!text.trim().isEmpty()" of every handler. */
  lemma TrimEmptyIff(s: string)
    ensures Trim(s) == [] <==> forall k :: 0 <= k < |s| ==> IsTrimmed(s[k])
  {
    var lo, hi := TrimIsSlice(s);
    if Trim(s) != [] {
      assert !IsTrimmed(s[lo]);
    }
  }

  /** Trimming twice is trimming once. */
  lemma TrimIdempotent(s: string)
    ensures Trim(Trim(s)) == Trim(s)
  {
    var t := Trim(s);
    if t != [] {
      var lo, hi := TrimIsSlice(s);
      assert !IsTrimmed(t[0]) && !IsTrimmed(t[|t| - 1]);
      assert TrimStart(t) == t;
    }
  }

  /** A worked case: the spaces around a word go, the word stays. */
  lemma TrimPadded()
    ensures Trim(" nota ") == "nota"
  {
    assert TrimStart("nota ") == "nota ";
    assert TrimStart(" nota ") == "nota ";
    assert TrimEnd("nota") == "nota";
    assert TrimEnd("nota ") == "nota";
  }

  /** Lower-casing of one character: the Latin capitals A-Z. */
  function LowerChar(c: char): (r: char)
    ensures !('A' <= r <= 'Z')
    ensures r != c ==> 'A' <= c <= 'Z' && r as int - c as int == 'a' as int - 'A' as int
  {
    if 'A' <= c <= 'Z' then (c as int + 32) as char else c
  }

  /** String.toLowerCase(), character by character. */
  function Lower(s: string): (r: string)
    ensures |r| == |s|
    ensures forall k :: 0 <= k < |s| ==> r[k] == LowerChar(s[k])
  {
    if s == [] then [] else [LowerChar(s[0])] + Lower(s[1..])
  }

  lemma LowerIdempotent(s: string)
    ensures Lower(Lower(s)) == Lower(s)
  {
    assert forall k :: 0 <= k < |s| ==> LowerChar(LowerChar(s[k])) == LowerChar(s[k]);
  }

  /** sub occurs in s starting at index i. */
  predicate OccursAt(s: string, sub: string, i: nat) {
    i + |sub| <= |s| && s[i..i + |sub|] == sub
  }

  /** String.contains(sub): a scan for the first position sub occurs at. */
  function Contains(s: string, sub: string): (r: bool)
    ensures r ==> |sub| <= |s|
    ensures sub == [] ==> r
  {
    if |sub| > |s| then false
    else s[..|sub|] == sub || Contains(s[1..], sub)
  }

  /** Contains holds exactly when sub occurs at some index of s. */
  lemma {:induction false} ContainsIff(s: string, sub: string)
    ensures Contains(s, sub) <==> exists i: nat :: OccursAt(s, sub, i)
  {
    if |sub| > |s| {
      forall i: nat ensures !OccursAt(s, sub, i) { }
    } else if s[..|sub|] == sub {
      assert OccursAt(s, sub, 0);
    } else {
      ContainsIff(s[1..], sub);
      if Contains(s[1..], sub) {
        var i: nat :| OccursAt(s[1..], sub, i);
        assert s[1..][i..i + |sub|] == s[i + 1..i + 1 + |sub|];
        assert OccursAt(s, sub, i + 1);
      } else {
        forall i: nat | OccursAt(s, sub, i) ensures false {
          if i > 0 {
            assert s[1..][i - 1..i - 1 + |sub|] == s[i..i + |sub|];
            assert OccursAt(s[1..], sub, i - 1);
          }
        }
      }
    }
  }
}
