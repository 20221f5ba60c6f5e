/** `String.trim()`: strip leading and trailing characters at or below U+0020. */
module JavaText {
  import opened JavaInts

  /** The characters `String.trim()` removes. */
  predicate IsTrimmable(c: JavaChar) {
    c as int <= 0x20
  }

  function TrimStart(s: seq<JavaChar>): (r: seq<JavaChar>)
    ensures |r| <= |s|
    ensures r == [] || !IsTrimmable(r[0])
  {
    if |s| > 0 && IsTrimmable(s[0]) then TrimStart(s[1..]) else s
  }

  /** `TrimStart` keeps a suffix and drops only trimmable characters. */
  lemma {:induction false} TrimStartDropsBlanks(s: seq<JavaChar>)
    ensures TrimStart(s) == s[|s| - |TrimStart(s)|..]
    ensures forall k :: 0 <= k < |s| - |TrimStart(s)| ==> IsTrimmable(s[k])
    decreases |s|
  {
    if |s| > 0 && IsTrimmable(s[0]) {
      TrimStartDropsBlanks(s[1..]);
      forall k | 1 <= k < |s| - |TrimStart(s)| ensures IsTrimmable(s[k]) {
        assert s[k] == s[1..][k - 1];
      }
    }
  }

  function TrimEnd(s: seq<JavaChar>): (r: seq<JavaChar>)
    ensures |r| <= |s| && r == s[..|r|]
    ensures r == [] || !IsTrimmable(r[|r| - 1])
    ensures forall k :: |r| <= k < |s| ==> IsTrimmable(s[k])
  {
    if |s| > 0 && IsTrimmable(s[|s| - 1]) then TrimEnd(s[..|s| - 1]) else s
  }

  function Trim(s: seq<JavaChar>): (r: seq<JavaChar>)
    ensures r == [] || (!IsTrimmable(r[0]) && !IsTrimmable(r[|r| - 1]))
  {
    TrimEnd(TrimStart(s))
  }

  /** Leading trimmable characters make no difference to `TrimStart`. */
  lemma {:induction false} TrimStartSkipsBlanks(blank: seq<JavaChar>, s: seq<JavaChar>)
    requires forall k :: 0 <= k < |blank| ==> IsTrimmable(blank[k])
    requires s != [] && !IsTrimmable(s[0])
    ensures TrimStart(blank + s) == s
  {
    var t := blank + s;
    TrimStartDropsBlanks(t);
    assert t[|blank|] == s[0];
  }

  /** Trailing trimmable characters make no difference to `TrimEnd`. */
  lemma {:induction false} TrimEndSkipsBlanks(s: seq<JavaChar>, blank: seq<JavaChar>)
    requires forall k :: 0 <= k < |blank| ==> IsTrimmable(blank[k])
    ensures TrimEnd(s + blank) == TrimEnd(s)
  {
    var t := s + blank;
    var r := TrimEnd(t);
    forall k | |r| <= k < |s| ensures IsTrimmable(s[k]) {
      assert s[k] == t[k];
    }
  }

  /** A non-trimmable first character survives `TrimEnd`, and the rest is trimmed on its own. */
  lemma {:induction false} TrimEndKeepsHead(c: JavaChar, s: seq<JavaChar>)
    requires !IsTrimmable(c)
    ensures TrimEnd([c] + s) == [c] + TrimEnd(s)
  {
    var t := [c] + s;
    var r := TrimEnd(t);
    assert t[0] == c;
    assert |r| >= 1;
    forall k | |r| - 1 <= k < |s| ensures IsTrimmable(s[k]) {
      assert s[k] == t[k + 1];
    }
    assert r[|r| - 1] == t[|r| - 1];
  }

  /** Trimming blanks, one non-blank character, a text and more blanks. */
  lemma {:induction false} TrimAroundField(blank: seq<JavaChar>, c: JavaChar, e: seq<JavaChar>, pad: seq<JavaChar>)
    requires forall k :: 0 <= k < |blank| ==> IsTrimmable(blank[k])
    requires !IsTrimmable(c)
    requires forall k :: 0 <= k < |pad| ==> IsTrimmable(pad[k])
    ensures Trim(blank + [c] + e + pad) == [c] + TrimEnd(e)
  {
    var rest := [c] + e + pad;
    assert blank + [c] + e + pad == blank + rest;
    TrimStartSkipsBlanks(blank, rest);
    assert rest == ([c] + e) + pad;
    TrimEndSkipsBlanks([c] + e, pad);
    TrimEndKeepsHead(c, e);
  }
}
