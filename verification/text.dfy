/** Python's `str.strip` family, modelled over `seq<char>`.
    `s.strip()` removes the characters `str.isspace` accepts from both ends;
    `s.strip(chars)` removes every character of `chars` from both ends. */
module Text {

  /** The characters Python's `str.isspace` accepts: the ASCII controls
      `\t \n \v \f \r`, the separators `\x1c`-`\x1f`, and the Unicode
      spaces and line/paragraph separators. */
  const Whitespace: set<char> := {
    '\t', '\n', '\U{000B}', '\U{000C}', '\r',
    '\U{001C}', '\U{001D}', '\U{001E}', '\U{001F}', ' ',
    '\U{0085}', '\U{00A0}', '\U{1680}',
    '\U{2000}', '\U{2001}', '\U{2002}', '\U{2003}', '\U{2004}', '\U{2005}',
    '\U{2006}', '\U{2007}', '\U{2008}', '\U{2009}', '\U{200A}',
    '\U{2028}', '\U{2029}', '\U{202F}', '\U{205F}', '\U{3000}'
  }

  /** Drops the longest prefix of `s` made of characters in `cut`. */
  function TrimStart(s: string, cut: set<char>): (r: string)
    ensures |r| <= |s|
    decreases |s|
  {
    if |s| > 0 && s[0] in cut then TrimStart(s[1..], cut) else s
  }

  /** Drops the longest suffix of `s` made of characters in `cut`. */
  function TrimEnd(s: string, cut: set<char>): (r: string)
    ensures |r| <= |s|
    decreases |s|
  {
    if |s| > 0 && s[|s| - 1] in cut then TrimEnd(s[..|s| - 1], cut) else s
  }

  /** `s.strip(chars)` with `chars` given as the set `cut`. */
  function Trim(s: string, cut: set<char>): (r: string)
    ensures |r| <= |s|
    ensures s == [] || (s[0] !in cut && s[|s| - 1] !in cut) ==> r == s
  {
    TrimEnd(TrimStart(s, cut), cut)
  }

  /** `TrimStart` keeps a suffix of `s`, removes only characters of `cut`,
      and removes all of the leading ones. */
  lemma {:induction false} TrimStartSpec(s: string, cut: set<char>)
    ensures var r := TrimStart(s, cut);
      && r == s[|s| - |r|..]
      && (forall k :: 0 <= k < |s| - |r| ==> s[k] in cut)
      && (|r| > 0 ==> r[0] !in cut)
    decreases |s|
  {
    if |s| > 0 && s[0] in cut {
      TrimStartSpec(s[1..], cut);
      var r := TrimStart(s, cut);
      forall k | 0 <= k < |s| - |r| ensures s[k] in cut {
        if k > 0 {
          assert s[k] == s[1..][k - 1];
        }
      }
    }
  }

  /** `TrimEnd` keeps a prefix of `s`, removes only characters of `cut`,
      and removes all of the trailing ones. */
  lemma {:induction false} TrimEndSpec(s: string, cut: set<char>)
    ensures var r := TrimEnd(s, cut);
      && r == s[..|r|]
      && (forall k :: |r| <= k < |s| ==> s[k] in cut)
      && (|r| > 0 ==> r[|r| - 1] !in cut)
    decreases |s|
  {
    if |s| > 0 && s[|s| - 1] in cut {
      TrimEndSpec(s[..|s| - 1], cut);
    }
  }

  /** `Trim` leaves neither end in `cut`, empties exactly the strings made
      only of `cut`, and leaves strings with clean ends unchanged. */
  lemma {:induction false} TrimSpec(s: string, cut: set<char>)
    ensures var r := Trim(s, cut);
      && (|r| > 0 ==> r[0] !in cut && r[|r| - 1] !in cut)
      && ((forall k :: 0 <= k < |s| ==> s[k] in cut) <==> r == [])
      && (s == [] || (s[0] !in cut && s[|s| - 1] !in cut) ==> r == s)
  {
    var front := TrimStart(s, cut);
    TrimStartSpec(s, cut);
    TrimEndSpec(front, cut);
  }

  /** `s.strip()`. */
  function Strip(s: string): (r: string)
    ensures |r| <= |s|
    ensures s == [] || (s[0] !in Whitespace && s[|s| - 1] !in Whitespace) ==> r == s
  {
    Trim(s, Whitespace)
  }

  /** A word of lower-case letters has no whitespace to strip. */
  lemma {:induction false} StripWord(s: string)
    requires forall k :: 0 <= k < |s| ==> 'a' <= s[k] <= 'z'
    ensures Strip(s) == s
  {
    TrimSpec(s, Whitespace);
    if |s| > 0 {
      assert s[0] !in Whitespace;
      assert s[|s| - 1] !in Whitespace;
    }
  }

  /** `s.strip(":")`: colons go from both ends, not only the trailing one. */
  function StripColons(s: string): (r: string)
    ensures |r| <= |s|
    ensures s == [] || (s[0] != ':' && s[|s| - 1] != ':') ==> r == s
  {
    Trim(s, {':'})
  }

  /** `strip(":")` takes colons off both ends: a name with clean ends is
      recovered from `name:`, `:name` and `:name:` alike. */
  lemma {:induction false} StripColonsBothEnds(name: string)
    requires name == [] || (name[0] != ':' && name[|name| - 1] != ':')
    ensures StripColons(name + ":") == name
    ensures StripColons(":" + name) == name
    ensures StripColons(":" + name + ":") == name
  {
    var colon: set<char> := {':'};
    TrimSpec(name, colon);
    TrimStartSpec(":" + name + ":", colon);
    TrimStartSpec(name + ":", colon);
    TrimStartSpec(":" + name, colon);
    assert (":" + name + ":")[1..] == name + ":";
    assert (":" + name)[1..] == name;
    assert TrimStart(":" + name + ":", colon) == TrimStart(name + ":", colon);
    assert TrimStart(":" + name, colon) == TrimStart(name, colon);
    if name == [] {
      assert TrimStart(name + ":", colon) == TrimStart([], colon);
    } else {
      assert TrimStart(name + ":", colon) == name + ":";
      assert (name + ":")[..|name|] == name;
      assert TrimEnd(name + ":", colon) == TrimEnd(name, colon);
    }
  }

  /** A leading space joined on by `" ".join(["", x])` disappears under `strip()`. */
  lemma {:induction false} StripLeadingSpace(s: string)
    ensures Strip(" " + s) == Strip(s)
  {
    assert (" " + s)[1..] == s;
    assert TrimStart(" " + s, Whitespace) == TrimStart(s, Whitespace);
  }
}
