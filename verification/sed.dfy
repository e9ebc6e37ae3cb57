/**
 The escaping `sed` applies to its search and replacement strings before
 putting them between the `/` delimiters of an `s/…/…/g` script: every
 `/` becomes `\/` (`replacingOccurrences(of: "/", with: "\\/")`).
 */
module Sed {

  /** The number of slashes in `s`. */
  function Slashes(s: string): nat
    decreases |s|
  {
    if |s| == 0 then 0 else (if s[0] == '/' then 1 else 0) + Slashes(s[1..])
  }

  /**
   Every `/` replaced by `\/`. The result is longer by the number of
   slashes, and no slash in it is left without a backslash in front.
   */
  function EscapeSlashes(s: string): (r: string)
    ensures |r| == |s| + Slashes(s)
    ensures forall k :: 0 <= k < |r| && r[k] == '/' ==> 0 < k && r[k - 1] == '\\'
    decreases |s|
  {
    if |s| == 0 then ""
    else
      var head := if s[0] == '/' then "\\/" else [s[0]];
      var rest := EscapeSlashes(s[1..]);
      assert forall k :: |head| <= k < |head| + |rest| ==> (head + rest)[k] == rest[k - |head|];
      head + rest
  }

  /** Reads every `\/` back as `/`, scanning left to right; everything else is kept. */
  function UnescapeSlashes(s: string): string
    decreases |s|
  {
    if |s| == 0 then ""
    else if |s| >= 2 && s[0] == '\\' && s[1] == '/' then "/" + UnescapeSlashes(s[2..])
    else [s[0]] + UnescapeSlashes(s[1..])
  }

  /**
   Escaping loses nothing and changes nothing but the slashes: reading the
   inserted `\/` pairs back as `/` restores the original exactly.
   */
  lemma {:induction false} UnescapeEscape(s: string)
    ensures UnescapeSlashes(EscapeSlashes(s)) == s
    decreases |s|
  {
    if |s| > 0 {
      var rest := EscapeSlashes(s[1..]);
      UnescapeEscape(s[1..]);
      if s[0] == '/' {
        assert EscapeSlashes(s) == "\\/" + rest;
        assert ("\\/" + rest)[2..] == rest;
      } else {
        var e := [s[0]] + rest;
        assert EscapeSlashes(s) == e;
        assert |rest| > 0 ==> rest[0] != '/';
        assert e[1..] == rest;
      }
      assert s == [s[0]] + s[1..];
    }
  }

  /** A string without slashes is left as it is. */
  lemma {:induction false} EscapeNoSlashes(s: string)
    requires forall k :: 0 <= k < |s| ==> s[k] != '/'
    ensures EscapeSlashes(s) == s
    decreases |s|
  {
    if |s| > 0 {
      EscapeNoSlashes(s[1..]);
      assert s == [s[0]] + s[1..];
    }
  }
}
