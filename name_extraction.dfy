/**
 * The `name` parameter of a request URL, as `extract_name` in
 * timing_server/src/main.rs computes it: `url.split("name=").nth(1)`.
 *
 * `Split` models Rust's `str::split` with the literal pattern "name=":
 * the pieces between successive non-overlapping occurrences of the
 * pattern, from left to right. `ExtractName` takes the second piece.
 */
module NameExtraction {
  import opened Wrappers

  /** The literal the URL is split on. */
  const Key: string := "name="

  /** `Key` occurs in `s` starting at index `i`. */
  predicate KeyAt(s: string, i: int) {
    0 <= i && i + |Key| <= |s| && s[i..i + |Key|] == Key
  }

  /** `Key` occurs somewhere in `s`. */
  ghost predicate ContainsKey(s: string) {
    exists i :: KeyAt(s, i)
  }

  lemma KeyAtShift(s: string, j: int)
    requires |s| >= 1 && 0 <= j
    ensures KeyAt(s, j + 1) <==> KeyAt(s[1..], j)
  {
    if j + 1 + |Key| <= |s| {
      assert s[1..][j..j + |Key|] == s[j + 1..j + 1 + |Key|];
    }
  }

  /** Index of the leftmost occurrence of `Key` in `s`, if any. */
  function FindKey(s: string): (r: Option<nat>)
    ensures r.None? <==> !ContainsKey(s)
    ensures r.Some? ==> KeyAt(s, r.value) && forall j :: 0 <= j < r.value ==> !KeyAt(s, j)
    decreases |s|
  {
    if |s| < |Key| then
      None
    else if s[..|Key|] == Key then
      assert KeyAt(s, 0);
      Some(0)
    else
      var tail := FindKey(s[1..]);
      forall j | 1 <= j
        ensures KeyAt(s, j) <==> KeyAt(s[1..], j - 1)
      {
        KeyAtShift(s, j - 1);
      }
      assert !KeyAt(s, 0);
      match tail
      case None => None
      case Some(i) =>
        assert KeyAt(s, i + 1);
        Some(i + 1)
  }

  /**
   * Two occurrences of `Key` never overlap: its first character 'n'
   * appears nowhere else in it.
   */
  lemma {:induction false} KeyOccurrencesApart(s: string, i: int, j: int)
    requires KeyAt(s, i) && KeyAt(s, j) && i < j
    ensures i + |Key| <= j
  {
    assert s[j] == s[j..j + |Key|][0] == 'n';
    forall k | i < k < i + |Key|
      ensures s[k] != 'n'
    {
      assert s[k] == s[i..i + |Key|][k - i];
    }
  }

  /** The pieces of `s` between the occurrences of `Key`, as `s.split("name=")` yields them. */
  function Split(s: string): (pieces: seq<string>)
    ensures |pieces| >= 1
    ensures |pieces| == 1 <==> !ContainsKey(s)
    decreases |s|
  {
    match FindKey(s)
    case None => [s]
    case Some(i) => [s[..i]] + Split(s[i + |Key|..])
  }

  /** The inverse of `Split`: the pieces glued back together with `Key` between them. */
  function Join(pieces: seq<string>): string
    requires |pieces| >= 1
  {
    if |pieces| == 1 then pieces[0] else pieces[0] + Key + Join(pieces[1..])
  }

  /**
   * `url.split("name=").nth(1)`: the second piece, if there is one.
   * There is none exactly when "name=" does not occur in the URL.
   */
  function ExtractName(url: string): (r: Option<string>)
    ensures r.None? <==> !ContainsKey(url)
  {
    var pieces := Split(url);
    if |pieces| >= 2 then Some(pieces[1]) else None
  }

  /** The leftmost occurrence of `Key` in `p + Key + t`, when `p` holds none, is right after `p`. */
  lemma FindKeyAfterKeyFree(p: string, t: string)
    requires !ContainsKey(p)
    ensures FindKey(p + Key + t) == Some(|p|)
  {
    var u := p + Key + t;
    assert u[|p|..|p| + |Key|] == Key;
    assert KeyAt(u, |p|);
    forall j | 0 <= j < |p|
      ensures !KeyAt(u, j)
    {
      if j + |Key| <= |p| {
        assert u[j..j + |Key|] == p[j..j + |Key|];
        assert !KeyAt(p, j);
      } else if KeyAt(u, j) {
        KeyOccurrencesApart(u, j, |p|);
      }
    }
  }

  /** Splitting a key-free prefix off: `(p + "name=" + t).split(..)` is `p` then the pieces of `t`. */
  lemma SplitAfterKeyFree(p: string, t: string)
    requires !ContainsKey(p)
    ensures Split(p + Key + t) == [p] + Split(t)
  {
    var u := p + Key + t;
    FindKeyAfterKeyFree(p, t);
    assert u[..|p|] == p;
    assert u[|p| + |Key|..] == t;
  }

  /** The text before the leftmost occurrence of `Key` holds none. */
  lemma PrefixBeforeFirstKey(s: string, i: nat)
    requires FindKey(s) == Some(i)
    ensures !ContainsKey(s[..i])
  {
    forall j | 0 <= j
      ensures !KeyAt(s[..i], j)
    {
      if j + |Key| <= i {
        assert s[..i][j..j + |Key|] == s[j..j + |Key|];
        assert !KeyAt(s, j);
      }
    }
  }

  /** Gluing the pieces of `s` back together with `Key` gives `s`, and no piece holds `Key`. */
  lemma {:induction false} JoinSplit(s: string)
    ensures Join(Split(s)) == s
    ensures forall k :: 0 <= k < |Split(s)| ==> !ContainsKey(Split(s)[k])
    decreases |s|
  {
    match FindKey(s)
    case None =>
    case Some(i) =>
      var p, t := s[..i], s[i + |Key|..];
      assert s == p + Key + t by {
        assert s[i..i + |Key|] == Key;
      }
      PrefixBeforeFirstKey(s, i);
      JoinSplit(t);
      var pieces := [p] + Split(t);
      assert Split(s) == pieces;
      assert pieces[1..] == Split(t);
      assert Join(pieces) == p + Key + Join(Split(t));
      assert forall k :: 1 <= k < |pieces| ==> pieces[k] == Split(t)[k - 1];
  }

  /** Splitting the join of key-free pieces gives the pieces back. */
  lemma {:induction false} SplitJoin(pieces: seq<string>)
    requires |pieces| >= 1
    requires forall k :: 0 <= k < |pieces| ==> !ContainsKey(pieces[k])
    ensures Split(Join(pieces)) == pieces
  {
    if |pieces| == 1 {
      assert FindKey(pieces[0]).None?;
    } else {
      SplitJoin(pieces[1..]);
      SplitAfterKeyFree(pieces[0], Join(pieces[1..]));
    }
  }

  /**
   * When `extract_name` finds a name, the URL is a key-free prefix, the
   * first "name=", the name (itself key-free), then either nothing or
   * the next "name=" and whatever follows it. The text after `&` is not
   * cut off.
   */
  lemma ExtractNameParts(url: string) returns (prefix: string, name: string, rest: string)
    requires ExtractName(url).Some?
    ensures ExtractName(url) == Some(name)
    ensures url == prefix + Key + name + rest
    ensures !ContainsKey(prefix) && !ContainsKey(name)
    ensures rest == [] || KeyAt(rest, 0)
  {
    var pieces := Split(url);
    JoinSplit(url);
    prefix, name := pieces[0], pieces[1];
    assert !ContainsKey(prefix) && !ContainsKey(name);
    rest := JoinAfterSecond(pieces);
  }

  /** The join of two or more pieces: the first two, then nothing or the next "name=" and beyond. */
  lemma JoinAfterSecond(pieces: seq<string>) returns (rest: string)
    requires |pieces| >= 2
    ensures Join(pieces) == pieces[0] + Key + pieces[1] + rest
    ensures rest == [] || KeyAt(rest, 0)
  {
    var tail := pieces[1..];
    if |tail| == 1 {
      rest := [];
    } else {
      rest := Key + Join(tail[1..]);
      assert rest[..|Key|] == Key;
    }
  }

  /** Conversely, every URL of that shape yields exactly that name. */
  lemma ExtractNameOf(prefix: string, name: string, rest: string)
    requires !ContainsKey(prefix) && !ContainsKey(name)
    requires rest == [] || KeyAt(rest, 0)
    ensures ExtractName(prefix + Key + name + rest) == Some(name)
  {
    var url := prefix + Key + name + rest;
    assert url == prefix + Key + (name + rest);
    SplitAfterKeyFree(prefix, name + rest);
    if rest == [] {
      assert name + rest == name;
      assert FindKey(name).None?;
    } else {
      var t := rest[|Key|..];
      assert rest == Key + t;
      assert name + rest == name + Key + t;
      SplitAfterKeyFree(name, t);
    }
  }

  /** A string without the letter 'n' cannot contain "name=". */
  lemma NoKeyWithoutN(s: string)
    requires forall i :: 0 <= i < |s| ==> s[i] != 'n'
    ensures !ContainsKey(s)
  {
    forall i | 0 <= i && i + |Key| <= |s|
      ensures !KeyAt(s, i)
    {
      assert s[i..i + |Key|][0] == s[i] != 'n';
    }
  }

  /** The name runs past `&`: nothing after "name=" is treated as a separate parameter. */
  lemma ExtractNameKeepsAmpersand()
    ensures ExtractName("/stop?name=a&x=1") == Some("a&x=1")
  {
    NoKeyWithoutN("/stop?");
    NoKeyWithoutN("a&x=1");
    assert "/stop?name=a&x=1" == "/stop?" + Key + "a&x=1" + "";
    ExtractNameOf("/stop?", "a&x=1", "");
  }

  /** The match also fires inside a longer key such as `username=`. */
  lemma ExtractNameInsideLongerKey()
    ensures ExtractName("/start?username=bob") == Some("bob")
  {
    NoKeyWithoutN("/start?user");
    NoKeyWithoutN("bob");
    assert "/start?username=bob" == "/start?user" + Key + "bob" + "";
    ExtractNameOf("/start?user", "bob", "");
  }

  /** The name stops at a second "name=". */
  lemma ExtractNameStopsAtSecondKey()
    ensures ExtractName("/start?name=a&name=b") == Some("a&")
  {
    NoKeyWithoutN("/start?");
    NoKeyWithoutN("a&");
    assert "/start?name=a&name=b" == "/start?" + Key + "a&" + "name=b";
    ExtractNameOf("/start?", "a&", "name=b");
  }
}
