/**
 * The header strip both image handlers apply to an uploaded base64 image:
 * `base64Image.replace(/^data:image\/\w+;base64,/, "")`. RFC 2397, section 3, writes a data
 * URL as `data:[<mediatype>][;base64],<data>`; the pattern accepts only the `image/<word>`
 * media types without parameters.
 */
module DataUrl {
  import opened Text

  const Prefix := "data:image/"
  const Marker := ";base64,"

  predicate IsWord(w: string) {
    w != [] && forall k :: 0 <= k < |w| ==> IsWordChar(w[k])
  }

  /** The header a client sends for an image of the given subtype. */
  function Header(subtype: string): string {
    Prefix + subtype + Marker
  }

  /** The end of the run of word characters that starts at `i`. */
  function WordRunEnd(s: string, i: nat): (j: nat)
    requires i <= |s|
    ensures i <= j <= |s|
    ensures forall k :: i <= k < j ==> IsWordChar(s[k])
    ensures j == |s| || !IsWordChar(s[j])
    decreases |s| - i
  {
    if i < |s| && IsWordChar(s[i]) then WordRunEnd(s, i + 1) else i
  }

  /** The length of the header the pattern matches at the start of `s`, 0 when it does not match. */
  function HeaderLength(s: string): nat {
    if |s| >= |Prefix| && s[..|Prefix|] == Prefix then
      var j := WordRunEnd(s, |Prefix|);
      if j > |Prefix| && StartsAt(s, Marker, j) then j + |Marker| else 0
    else 0
  }

  /**
   * The replace call. Whatever it removes is one header at the very start of `s`; when it
   * removes nothing, `s` passes through unchanged.
   */
  function StripHeader(s: string): (r: string)
    ensures |r| <= |s| && r == s[|s| - |r|..]
    ensures r != s ==> |s| - |r| > |Prefix| + |Marker|
    ensures r != s ==> IsWord(s[|Prefix|..|s| - |r| - |Marker|]) && s == Header(s[|Prefix|..|s| - |r| - |Marker|]) + r
  {
    var n := HeaderLength(s);
    assert n > 0 ==> s == Header(s[|Prefix|..n - |Marker|]) + s[n..] by {
      if n > 0 {
        assert s[..n] == Header(s[|Prefix|..n - |Marker|]);
        assert s == s[..n] + s[n..];
      }
    }
    s[n..]
  }

  lemma {:induction false} WordRunOver(s: string, i: nat, n: nat)
    requires i + n <= |s|
    requires forall k :: i <= k < i + n ==> IsWordChar(s[k])
    requires i + n == |s| || !IsWordChar(s[i + n])
    ensures WordRunEnd(s, i) == i + n
    decreases n
  {
    if n > 0 {
      WordRunOver(s, i + 1, n - 1);
    }
  }

  /**
   * The header of any image subtype made of word characters is removed, and only it: the
   * payload comes back exactly, even when the payload itself starts with another header.
   */
  lemma StripHeaderRemovesOne(subtype: string, payload: string)
    requires IsWord(subtype)
    ensures StripHeader(Header(subtype) + payload) == payload
  {
    var s := Header(subtype) + payload;
    var j := |Prefix| + |subtype|;
    assert s[..|Prefix|] == Prefix;
    assert s[j] == ';';
    WordRunOver(s, |Prefix|, |subtype|);
    assert s[j..j + |Marker|] == Marker;
    assert HeaderLength(s) == j + |Marker|;
    assert s[j + |Marker|..] == payload;
  }

  /** A valid RFC 2397 data URL whose subtype is not a `\w+` word is not stripped at all. */
  lemma SvgHeaderIsKept(payload: string)
    ensures StripHeader("data:image/svg+xml;base64," + payload) == "data:image/svg+xml;base64," + payload
  {
    var s := "data:image/svg+xml;base64," + payload;
    assert s[..|Prefix|] == Prefix;
    assert s[14] == '+';
    WordRunOver(s, |Prefix|, 3);
    assert !StartsAt(s, Marker, 14);
  }
}
