/** String searching and the `=`-splitting of an invocation token
    (`detail::StringSplit` and `std::string::find` in cmdline.h). */
module Text {
  import opened Wrappers

  /** The separator between a name and its value in a token. */
  const Separator: char := '='

  /** `pat` occurs in `s` starting at index `k`. */
  predicate OccursAt(s: string, pat: string, k: nat)
  {
    k + |pat| <= |s| && s[k..k + |pat|] == pat
  }

  /** `s.find(pat, from)`: the first occurrence at or after `from`;
      `None` plays the part of `std::string::npos`. */
  function Find(s: string, pat: string, from: nat): (r: Option<nat>)
    ensures r.Some? ==> from <= r.value && OccursAt(s, pat, r.value)
    ensures r.Some? ==> forall k :: from <= k < r.value ==> !OccursAt(s, pat, k)
    ensures r.None? ==> forall k :: from <= k ==> !OccursAt(s, pat, k)
    decreases |s| - from
  {
    if from + |pat| > |s| then None
    else if s[from..from + |pat|] == pat then Some(from)
    else Find(s, pat, from + 1)
  }

  /** `s.find(pat) != npos`: a substring test, not a prefix test. */
  predicate Contains(s: string, pat: string)
  {
    Find(s, pat, 0).Some?
  }

  lemma ContainsIffOccurs(s: string, pat: string)
    ensures Contains(s, pat) <==> exists k: nat :: OccursAt(s, pat, k)
  {
  }

  /** A one-character pattern occurs exactly where that character stands. */
  lemma OccursAtChar(s: string, c: char, k: nat)
    ensures OccursAt(s, [c], k) <==> k < |s| && s[k] == c
  {
    if k < |s| {
      assert s[k..k + 1] == [s[k]];
    }
  }

  /** Searching for a single character, stated over characters. */
  lemma FindChar(s: string, c: char, from: nat)
    requires from <= |s|
    ensures Find(s, [c], from).Some? ==>
              var k := Find(s, [c], from).value;
              k < |s| && s[k] == c && c !in s[from..k]
    ensures Find(s, [c], from).None? ==> c !in s[from..]
  {
    var r := Find(s, [c], from);
    if r.Some? {
      OccursAtChar(s, c, r.value);
      forall j | from <= j < r.value
        ensures s[j] != c
      {
        OccursAtChar(s, c, j);
      }
    } else {
      forall j | from <= j < |s|
        ensures s[j] != c
      {
        OccursAtChar(s, c, j);
      }
    }
  }

  /** Number of occurrences of `c` in `s`. */
  function Count(s: string, c: char): nat
  {
    if |s| == 0 then 0 else (if s[0] == c then 1 else 0) + Count(s[1..], c)
  }

  lemma {:induction false} CountAppend(a: string, b: string, c: char)
    ensures Count(a + b, c) == Count(a, c) + Count(b, c)
  {
    if |a| > 0 {
      assert (a + b)[1..] == a[1..] + b;
      CountAppend(a[1..], b, c);
    } else {
      assert a + b == b;
    }
  }

  lemma {:induction false} CountAbsent(s: string, c: char)
    ensures Count(s, c) == 0 <==> c !in s
  {
    if |s| > 0 {
      CountAbsent(s[1..], c);
      assert s == [s[0]] + s[1..];
    }
  }

  /** Every piece is free of the separator. */
  predicate SeparatorFree(pieces: seq<string>)
  {
    forall i :: 0 <= i < |pieces| ==> Separator !in pieces[i]
  }

  /** The pieces glued back together with one separator between neighbours. */
  function Join(pieces: seq<string>): string
  {
    if |pieces| == 0 then ""
    else if |pieces| == 1 then pieces[0]
    else pieces[0] + [Separator] + Join(pieces[1..])
  }

  /** `f` is the text of `s` up to (not including) its first separator,
      or all of `s` when it has none. */
  predicate LeadingField(s: string, f: string)
  {
    f <= s && Separator !in f && (|f| == |s| || s[|f|] == Separator)
  }

  lemma LeadingFieldUnique(s: string, f: string, g: string)
    requires LeadingField(s, f) && LeadingField(s, g)
    ensures f == g
  {
  }

  /** Splits a token at every separator; this is the behaviour of
      `StringSplit` on non-empty input. */
  function SplitPieces(s: string): (r: seq<string>)
    ensures |r| >= 1
    ensures SeparatorFree(r)
    ensures Join(r) == s
    decreases |s|
  {
    FindChar(s, Separator, 0);
    match Find(s, [Separator], 0)
    case None => assert s[0..] == s; [s]
    case Some(k) =>
      var rest := SplitPieces(s[k + 1..]);
      assert s == s[..k] + [Separator] + s[k + 1..];
      assert ([s[..k]] + rest)[1..] == rest;
      [s[..k]] + rest
  }

  /** `detail::StringSplit(src)` with the default pattern `"="`: an empty
      input gives no pieces; any other input is cut at every separator. */
  function StringSplit(src: string): (r: seq<string>)
    ensures |src| == 0 ==> r == []
    ensures |src| > 0 ==> |r| >= 1 && SeparatorFree(r) && Join(r) == src
  {
    if |src| == 0 then [] else SplitPieces(src)
  }

  /** A separator-free piece is recovered from `a + "=" + x`. */
  lemma SplitAtFirst(a: string, x: string, b: string, y: string)
    requires Separator !in a && Separator !in b
    requires a + [Separator] + x == b + [Separator] + y
    ensures a == b && x == y
  {
    var s := a + [Separator] + x;
    assert s[|a|] == Separator;
    assert s[|b|] == Separator;
    assert forall j :: 0 <= j < |a| ==> s[j] == a[j];
    assert forall j :: 0 <= j < |b| ==> s[j] == b[j];
    assert |a| == |b|;
    assert a == s[..|a|] == b;
    assert x == s[|a| + 1..] == y;
  }

  /** Joining separator-free pieces loses nothing: the pieces are the only
      separator-free sequence that joins to the same text. */
  lemma {:induction false} JoinUnique(ps: seq<string>, qs: seq<string>)
    requires |ps| >= 1 && |qs| >= 1
    requires SeparatorFree(ps) && SeparatorFree(qs)
    requires Join(ps) == Join(qs)
    ensures ps == qs
    decreases |ps|
  {
    if |ps| > 1 && |qs| > 1 {
      SplitAtFirst(ps[0], Join(ps[1..]), qs[0], Join(qs[1..]));
      assert SeparatorFree(ps[1..]);
      assert SeparatorFree(qs[1..]);
      JoinUnique(ps[1..], qs[1..]);
      assert ps == [ps[0]] + ps[1..];
      assert qs == [qs[0]] + qs[1..];
    }
  }

  /** Splitting is the inverse of joining separator-free pieces. */
  lemma SplitJoin(ps: seq<string>)
    requires |ps| >= 1 && SeparatorFree(ps)
    requires |Join(ps)| > 0
    ensures StringSplit(Join(ps)) == ps
  {
    JoinUnique(StringSplit(Join(ps)), ps);
  }

  lemma {:induction false} JoinCount(ps: seq<string>)
    requires |ps| >= 1 && SeparatorFree(ps)
    ensures Count(Join(ps), Separator) == |ps| - 1
  {
    CountAbsent(ps[0], Separator);
    if |ps| > 1 {
      assert SeparatorFree(ps[1..]);
      JoinCount(ps[1..]);
      CountAppend(ps[0], [Separator], Separator);
      CountAppend(ps[0] + [Separator], Join(ps[1..]), Separator);
    }
  }

  /** On non-empty input there is one more piece than there are separators. */
  lemma SplitCount(src: string)
    requires |src| > 0
    ensures |StringSplit(src)| == Count(src, Separator) + 1
  {
    JoinCount(StringSplit(src));
  }

  /** What `Parse` takes from a token holding a separator: piece 0 is the
      text before the first `=`, piece 1 the text between the first and the
      second `=` (or the end), whatever follows being ignored. */
  lemma SplitFields(token: string)
    requires Separator in token
    ensures |StringSplit(token)| >= 2
    ensures var name := StringSplit(token)[0];
            LeadingField(token, name) && |name| < |token| &&
            LeadingField(token[|name| + 1..], StringSplit(token)[1])
  {
    var ps := StringSplit(token);
    var name := ps[0];
    var tail := Join(ps[1..]);
    assert token == name + [Separator] + tail;
    assert token[|name| + 1..] == tail;
    assert token[..|name|] == name;
    assert SeparatorFree(ps[1..]);
    if |ps| > 2 {
      assert tail == ps[1] + [Separator] + Join(ps[2..]);
      assert tail[..|ps[1]|] == ps[1];
    }
  }

  /** The loop of `detail::StringSplit`: `src + "="` is scanned with
      `find`, each piece between separators is pushed, and the scan resumes
      after the separator found. */
  method StringSplitLoop(src: string) returns (ret: seq<string>)
    ensures ret == StringSplit(src)
  {
    ret := [];
    if |src| == 0 {
      return;
    }
    var str := src + [Separator];
    var size := |str|;
    var i := 0;
    while i < size
      invariant 0 <= i <= size
      invariant i == 0 ==> ret == []
      invariant 0 < i ==> |ret| >= 1 && Join(ret) + [Separator] == str[..i]
      invariant SeparatorFree(ret)
    {
      var pos := Find(str, [Separator], i);
      SentinelFound(str, i);
      if pos.Some? && pos.value < size {
        PushPiece(str, ret, i, pos.value);
        ret := ret + [str[i..pos.value]];
        i := pos.value + |[Separator]| - 1;
      }
      i := i + 1;
    }
    LoopExit(src, ret);
  }

  /** The appended separator guarantees that every search finds one. */
  lemma SentinelFound(str: string, i: nat)
    requires i < |str| && str[|str| - 1] == Separator
    ensures Find(str, [Separator], i).Some?
    ensures Find(str, [Separator], i).value < |str|
    ensures Separator !in str[i..Find(str, [Separator], i).value]
  {
    FindChar(str, Separator, i);
  }

  /** One round of the loop: the piece up to the next separator extends
      the joined prefix by that piece and its separator. */
  lemma PushPiece(str: string, ret: seq<string>, i: nat, p: nat)
    requires i <= p < |str| && str[p] == Separator
    requires Separator !in str[i..p]
    requires i == 0 ==> ret == []
    requires 0 < i ==> |ret| >= 1 && Join(ret) + [Separator] == str[..i]
    requires SeparatorFree(ret)
    ensures Join(ret + [str[i..p]]) + [Separator] == str[..p + 1]
    ensures SeparatorFree(ret + [str[i..p]])
  {
    var s := str[i..p];
    PrefixExtend(str, i, p);
    if i > 0 {
      JoinSnoc(ret, s);
    } else {
      assert ret + [s] == [s];
    }
    AppendSeparatorFree(ret, s);
  }

  lemma PrefixExtend(str: string, i: nat, p: nat)
    requires i <= p < |str| && str[p] == Separator
    ensures str[..p + 1] == str[..i] + str[i..p] + [Separator]
  {
  }

  lemma AppendSeparatorFree(ret: seq<string>, s: string)
    requires SeparatorFree(ret) && Separator !in s
    ensures SeparatorFree(ret + [s])
  {
    assert forall j :: 0 <= j < |ret| ==> (ret + [s])[j] == ret[j];
  }

  lemma LoopExit(src: string, ret: seq<string>)
    requires |src| > 0
    requires |ret| >= 1 && Join(ret) + [Separator] == (src + [Separator])[..|src| + 1]
    requires SeparatorFree(ret)
    ensures ret == StringSplit(src)
  {
    assert (src + [Separator])[..|src| + 1] == src + [Separator];
    assert (Join(ret) + [Separator])[..|src|] == Join(ret);
    JoinUnique(ret, SplitPieces(src));
  }

  lemma {:induction false} JoinSnoc(ps: seq<string>, s: string)
    requires |ps| >= 1
    ensures Join(ps + [s]) == Join(ps) + [Separator] + s
    decreases |ps|
  {
    if |ps| == 1 {
      assert (ps + [s])[1..] == [s];
    } else {
      assert (ps + [s])[1..] == ps[1..] + [s];
      JoinSnoc(ps[1..], s);
    }
  }
}
