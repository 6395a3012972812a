/** The string operations the splitter is built from, with the semantics shared by
    Python's `str` and JavaScript's `String`: `split` and `count` with a literal
    separator, `join`, and `strip`/`trim`. The two languages disagree only on which
    characters count as whitespace, so every trimming function takes the whitespace
    set as a parameter (see `PyWhitespace` and `JsWhitespace`). */
module Text {

  /** The paragraph separator: two consecutive line feeds. */
  const Sep: string := "\n\n"

  /** Characters removed by Python's `str.strip()` with no argument
      (`str.isspace`: bidirectional class WS, B or S, or category Zs). */
  const PyWhitespace: set<char> := {
    '\t', '\n', '\U{0B}', '\U{0C}', '\r', '\U{1C}', '\U{1D}', '\U{1E}', '\U{1F}', ' ',
    '\U{85}', '\U{A0}', '\U{1680}',
    '\U{2000}', '\U{2001}', '\U{2002}', '\U{2003}', '\U{2004}', '\U{2005}',
    '\U{2006}', '\U{2007}', '\U{2008}', '\U{2009}', '\U{200A}',
    '\U{2028}', '\U{2029}', '\U{202F}', '\U{205F}', '\U{3000}'
  }

  /** Characters removed by JavaScript's `String.prototype.trim()`
      (WhiteSpace and LineTerminator of ECMAScript: category Zs, TAB, VT, FF,
      ZWNBSP, LF, CR, LS, PS). */
  const JsWhitespace: set<char> := {
    '\t', '\n', '\U{0B}', '\U{0C}', '\r', ' ',
    '\U{A0}', '\U{1680}',
    '\U{2000}', '\U{2001}', '\U{2002}', '\U{2003}', '\U{2004}', '\U{2005}',
    '\U{2006}', '\U{2007}', '\U{2008}', '\U{2009}', '\U{200A}',
    '\U{2028}', '\U{2029}', '\U{202F}', '\U{205F}', '\U{3000}', '\U{FEFF}'
  }

  /** The characters on which the two runtimes disagree. */
  lemma WhitespaceDifference()
    ensures PyWhitespace - JsWhitespace == {'\U{1C}', '\U{1D}', '\U{1E}', '\U{1F}', '\U{85}'}
    ensures JsWhitespace - PyWhitespace == {'\U{FEFF}'}
    ensures '\n' in PyWhitespace && '\n' in JsWhitespace
  {
  }

  /** Visible ASCII characters are whitespace to neither runtime. */
  lemma PrintableNotWs(c: char)
    requires '!' <= c <= '~'
    ensures c !in PyWhitespace && c !in JsWhitespace
  {
  }

  // ---------------------------------------------------------------- blankness

  /** `s` is made only of whitespace (the empty string included). */
  predicate IsBlank(s: string, ws: set<char>)
  {
    forall i :: 0 <= i < |s| ==> s[i] in ws
  }

  /** `s` does not contain the separator anywhere. */
  predicate SepFree(s: string)
  {
    forall i :: 0 <= i < |s| - 1 ==> !(s[i] == '\n' && s[i + 1] == '\n')
  }

  lemma {:induction false} NoNewlineSepFree(s: string)
    requires '\n' !in s
    ensures SepFree(s)
  {
    forall i | 0 <= i < |s| - 1 ensures s[i] != '\n' {
      assert s[i] in s;
    }
  }

  // ---------------------------------------------------------------- split, join, count

  /** `s.split("\n\n")`: cut at every occurrence of the separator, scanning left to
      right and not overlapping; there is always at least one part. */
  function Split(s: string): (parts: seq<string>)
    ensures |parts| >= 1
    decreases |s|
  {
    if |s| < 2 then [s]
    else if s[..2] == Sep then [""] + Split(s[2..])
    else
      var rest := Split(s[1..]);
      [[s[0]] + rest[0]] + rest[1..]
  }

  /** `"\n\n".join(parts)`. */
  function Join(parts: seq<string>): string
  {
    if |parts| == 0 then ""
    else if |parts| == 1 then parts[0]
    else parts[0] + Sep + Join(parts[1..])
  }

  /** `s.count("\n\n")`: occurrences of the separator, non-overlapping, leftmost first. */
  function Count(s: string): nat
    decreases |s|
  {
    if |s| < 2 then 0
    else if s[..2] == Sep then 1 + Count(s[2..])
    else Count(s[1..])
  }

  /** Splitting yields one part more than there are separators. */
  lemma {:induction false} SplitLength(s: string)
    ensures |Split(s)| == Count(s) + 1
    decreases |s|
  {
    if |s| < 2 {
    } else if s[..2] == Sep {
      SplitLength(s[2..]);
    } else {
      SplitLength(s[1..]);
    }
  }

  /** The first part is a prefix of the input. */
  lemma {:induction false} SplitHeadPrefix(s: string)
    ensures |Split(s)[0]| <= |s| && Split(s)[0] == s[..|Split(s)[0]|]
    decreases |s|
  {
    if |s| < 2 {
    } else if s[..2] == Sep {
    } else {
      SplitHeadPrefix(s[1..]);
    }
  }

  /** Joining the parts with the separator gives back the input. */
  lemma {:induction false} JoinSplit(s: string)
    ensures Join(Split(s)) == s
    decreases |s|
  {
    if |s| < 2 {
    } else if s[..2] == Sep {
      JoinSplit(s[2..]);
      assert s == Sep + s[2..];
    } else {
      JoinSplit(s[1..]);
      JoinExtendHead(s[0], Split(s[1..]));
      assert s == [s[0]] + s[1..];
    }
  }

  /** Prepending a character to the first part prepends it to the join. */
  lemma JoinExtendHead(c: char, parts: seq<string>)
    requires |parts| >= 1
    ensures Join([[c] + parts[0]] + parts[1..]) == [c] + Join(parts)
  {
    var head := [c] + parts[0];
    var extended := [head] + parts[1..];
    if |parts| == 1 {
      assert extended == [head];
    } else {
      var rest := Join(parts[1..]);
      assert extended[1..] == parts[1..];
      assert Join(extended) == head + Sep + rest;
      assert Join(parts) == parts[0] + Sep + rest;
      PrependAssoc(c, parts[0], rest);
    }
  }

  lemma PrependAssoc(c: char, a: string, b: string)
    ensures [c] + a + Sep + b == [c] + (a + Sep + b)
  {
  }

  /** No part contains the separator. */
  lemma {:induction false} SplitPartsSepFree(s: string)
    ensures forall k :: 0 <= k < |Split(s)| ==> SepFree(Split(s)[k])
    decreases |s|
  {
    if |s| < 2 {
    } else if s[..2] == Sep {
      SplitPartsSepFree(s[2..]);
    } else {
      var rest := Split(s[1..]);
      SplitPartsSepFree(s[1..]);
      SplitHeadPrefix(s[1..]);
      var head := [s[0]] + rest[0];
      forall i | 0 <= i < |head| - 1 ensures !(head[i] == '\n' && head[i + 1] == '\n') {
        if i > 0 {
          assert head[i] == rest[0][i - 1] && head[i + 1] == rest[0][i];
        } else {
          assert head[1] == s[1];
          assert s[..2] == [s[0], s[1]];
        }
      }
    }
  }

  /** Cuts are made at the leftmost separator: no part before the last ends in a line
      feed, since that line feed and the separator after it would have met earlier. */
  lemma {:induction false} SplitPartsNoTrailingNewline(s: string)
    ensures forall k :: 0 <= k < |Split(s)| - 1 ==>
              Split(s)[k] == [] || Split(s)[k][|Split(s)[k]| - 1] != '\n'
    decreases |s|
  {
    if |s| >= 2 {
      if s[..2] == Sep {
        SplitPartsNoTrailingNewline(s[2..]);
        assert forall k :: 1 <= k < |Split(s)| ==> Split(s)[k] == Split(s[2..])[k - 1];
      } else {
        var rest := Split(s[1..]);
        SplitPartsNoTrailingNewline(s[1..]);
        var head := [s[0]] + rest[0];
        assert Split(s) == [head] + rest[1..];
        if |rest| >= 2 {
          if rest[0] == [] {
            SplitEmptyHead(s[1..]);
            assert s[..2] == [s[0], s[1]];
          } else {
            assert head[|head| - 1] == rest[0][|rest[0]| - 1];
          }
        }
      }
    }
  }

  /** An empty first part followed by more parts means the text starts with the separator. */
  lemma SplitEmptyHead(s: string)
    requires |Split(s)| >= 2 && Split(s)[0] == []
    ensures |s| >= 2 && s[..2] == Sep
  {
  }

  /** A separator-free text is a single part. */
  lemma {:induction false} SplitSepFree(s: string)
    requires SepFree(s)
    ensures Split(s) == [s]
    decreases |s|
  {
    if |s| < 2 {
    } else {
      assert !(s[0] == '\n' && s[1] == '\n');
      assert s[..2] != Sep;
      SplitSepFree(s[1..]);
      assert [s[0]] + s[1..] == s;
    }
  }

  /** A separator-free part that does not end with a line feed is cut off exactly at
      the separator that follows it. */
  lemma {:induction false} SplitCons(a: string, r: string)
    requires SepFree(a)
    requires a == [] || a[|a| - 1] != '\n'
    ensures Split(a + Sep + r) == [a] + Split(r)
    decreases |a|
  {
    var s := a + Sep + r;
    if a == [] {
      assert s[..2] == Sep && s[2..] == r;
    } else {
      var a' := a[1..];
      assert s[1..] == a' + Sep + r;
      assert s[..2] != Sep by {
        assert s[..2] == [s[0], s[1]] && s[0] == a[0];
        if a[0] == '\n' && a' != [] {
          assert !(a[0] == '\n' && a[1] == '\n');
          assert s[1] == a[1];
        }
      }
      assert SepFree(a') by {
        forall i | 0 <= i < |a'| - 1 ensures !(a'[i] == '\n' && a'[i + 1] == '\n') {
          assert a'[i] == a[i + 1] && a'[i + 1] == a[i + 2];
        }
      }
      SplitCons(a', r);
      assert [a[0]] + a' == a;
    }
  }

  /** Parts that contain no separator and do not end with a line feed come back
      unchanged from splitting their join. */
  lemma {:induction false} SplitJoin(parts: seq<string>)
    requires |parts| >= 1
    requires forall k :: 0 <= k < |parts| ==> SepFree(parts[k])
    requires forall k :: 0 <= k < |parts| - 1 ==> parts[k] == [] || parts[k][|parts[k]| - 1] != '\n'
    ensures Split(Join(parts)) == parts
  {
    if |parts| == 1 {
      SplitSepFree(parts[0]);
    } else {
      SplitJoin(parts[1..]);
      SplitCons(parts[0], Join(parts[1..]));
      assert [parts[0]] + parts[1..] == parts;
    }
  }

  /** Whitespace-only parts with a line-feed separator join to a whitespace-only text,
      and the converse. */
  lemma {:induction false} JoinBlank(parts: seq<string>, ws: set<char>)
    requires '\n' in ws
    ensures IsBlank(Join(parts), ws) <==> forall k :: 0 <= k < |parts| ==> IsBlank(parts[k], ws)
  {
    if |parts| <= 1 {
    } else {
      JoinBlank(parts[1..], ws);
      var j := parts[0] + Sep + Join(parts[1..]);
      assert Join(parts) == j;
      if IsBlank(j, ws) {
        forall i | 0 <= i < |parts[0]| ensures parts[0][i] in ws {
          assert j[i] == parts[0][i];
        }
        forall i | 0 <= i < |Join(parts[1..])| ensures Join(parts[1..])[i] in ws {
          assert j[|parts[0]| + 2 + i] == Join(parts[1..])[i];
        }
        forall k | 0 <= k < |parts| ensures IsBlank(parts[k], ws) {
          if k > 0 { assert parts[k] == parts[1..][k - 1]; }
        }
      }
      if forall k :: 0 <= k < |parts| ==> IsBlank(parts[k], ws) {
        forall k | 0 <= k < |parts[1..]| ensures IsBlank(parts[1..][k], ws) {
          assert parts[1..][k] == parts[k + 1];
        }
        assert IsBlank(parts[0], ws);
        forall i | 0 <= i < |j| ensures j[i] in ws {
          if i < |parts[0]| {
          } else if i < |parts[0]| + 2 {
          } else {
            assert j[i] == Join(parts[1..])[i - |parts[0]| - 2];
          }
        }
      }
    }
  }

  /** Every character of every part occurs in the joined text. */
  lemma {:induction false} JoinContains(parts: seq<string>, k: nat, i: nat)
    requires k < |parts| && i < |parts[k]|
    ensures parts[k][i] in Join(parts)
  {
    if |parts| == 1 {
    } else {
      var j := parts[0] + Sep + Join(parts[1..]);
      if k == 0 {
        assert j[i] == parts[0][i];
      } else {
        JoinContains(parts[1..], k - 1, i);
        var x := parts[k][i];
        assert x in Join(parts[1..]);
        var m :| 0 <= m < |Join(parts[1..])| && Join(parts[1..])[m] == x;
        assert j[|parts[0]| + 2 + m] == x;
      }
    }
  }

  /** Every character of every part of a split occurs in the input. */
  lemma SplitContains(s: string, k: nat, i: nat)
    requires k < |Split(s)| && i < |Split(s)[k]|
    ensures Split(s)[k][i] in s
  {
    JoinContains(Split(s), k, i);
    JoinSplit(s);
  }

  // ---------------------------------------------------------------- strip / trim

  /** Number of leading whitespace characters. */
  function LeadingWs(s: string, ws: set<char>): (n: nat)
    ensures n <= |s|
    ensures forall k :: 0 <= k < n ==> s[k] in ws
    ensures n < |s| ==> s[n] !in ws
    decreases |s|
  {
    if s == [] || s[0] !in ws then 0 else 1 + LeadingWs(s[1..], ws)
  }

  /** Length of `s` once its trailing whitespace is cut off. */
  function TrailingEnd(s: string, ws: set<char>): (n: nat)
    ensures n <= |s|
    ensures forall k :: n <= k < |s| ==> s[k] in ws
    ensures n > 0 ==> s[n - 1] !in ws
    decreases |s|
  {
    if s == [] || s[|s| - 1] !in ws then |s| else TrailingEnd(s[..|s| - 1], ws)
  }

  /** `s.strip()` in Python, `s.trim()` in JavaScript, for the whitespace set `ws`:
      the result is empty exactly when `s` is blank, and otherwise begins and ends
      with a character outside `ws`. */
  function Strip(s: string, ws: set<char>): (r: string)
    ensures |r| <= |s|
    ensures r == [] <==> IsBlank(s, ws)
    ensures r != [] ==> r[0] !in ws && r[|r| - 1] !in ws
  {
    var t := s[LeadingWs(s, ws)..];
    t[..TrailingEnd(t, ws)]
  }

  /** What `Strip` removes is whitespace, and what it keeps is one contiguous piece of `s`. */
  lemma StripSlice(s: string, ws: set<char>)
    ensures var i := LeadingWs(s, ws);
            i + |Strip(s, ws)| <= |s| &&
            Strip(s, ws) == s[i..i + |Strip(s, ws)|] &&
            (forall k :: 0 <= k < i ==> s[k] in ws) &&
            (forall k :: i + |Strip(s, ws)| <= k < |s| ==> s[k] in ws)
  {
    var i := LeadingWs(s, ws);
    var t := s[i..];
    var n := TrailingEnd(t, ws);
    forall k | i + n <= k < |s| ensures s[k] in ws {
      assert s[k] == t[k - i];
    }
  }

  /** A string that already begins and ends with non-whitespace is left as it is. */
  lemma StripFixed(s: string, ws: set<char>)
    requires s == [] || (s[0] !in ws && s[|s| - 1] !in ws)
    ensures Strip(s, ws) == s
  {
  }

  /** Stripping twice is stripping once. */
  lemma StripIdempotent(s: string, ws: set<char>)
    ensures Strip(Strip(s, ws), ws) == Strip(s, ws)
  {
    StripFixed(Strip(s, ws), ws);
  }

  /** Stripping never introduces the separator. */
  lemma StripSepFree(s: string, ws: set<char>)
    requires SepFree(s)
    ensures SepFree(Strip(s, ws))
  {
    StripSlice(s, ws);
    var i := LeadingWs(s, ws);
    var r := Strip(s, ws);
    forall k | 0 <= k < |r| - 1 ensures !(r[k] == '\n' && r[k + 1] == '\n') {
      assert r[k] == s[i + k] && r[k + 1] == s[i + k + 1];
    }
  }

  /** Every character of the stripped text occurs in the original. */
  lemma StripContains(s: string, ws: set<char>, k: nat)
    requires k < |Strip(s, ws)|
    ensures Strip(s, ws)[k] in s
  {
    StripSlice(s, ws);
    assert Strip(s, ws)[k] == s[LeadingWs(s, ws) + k];
  }

  /** The filter `parts.filter(p => p.trim())`: the parts that are not blank, unchanged
      and in their original order. */
  function NonBlank(parts: seq<string>, ws: set<char>): (kept: seq<string>)
    ensures |kept| <= |parts|
    ensures forall k :: 0 <= k < |kept| ==> !IsBlank(kept[k], ws)
  {
    if parts == [] then []
    else (if Strip(parts[0], ws) != [] then [parts[0]] else []) + NonBlank(parts[1..], ws)
  }

  /** The filter keeps something exactly when some part is not blank. */
  lemma {:induction false} NonBlankEmpty(parts: seq<string>, ws: set<char>)
    ensures NonBlank(parts, ws) == [] <==> forall k :: 0 <= k < |parts| ==> IsBlank(parts[k], ws)
  {
    if parts != [] {
      NonBlankEmpty(parts[1..], ws);
      assert forall k :: 1 <= k < |parts| ==> parts[k] == parts[1..][k - 1];
    }
  }

  /** A part is kept exactly when it occurs in the input and is not blank. */
  lemma {:induction false} NonBlankMembers(parts: seq<string>, ws: set<char>)
    ensures forall p :: p in NonBlank(parts, ws) <==> p in parts && !IsBlank(p, ws)
  {
    if parts != [] {
      NonBlankMembers(parts[1..], ws);
      assert parts == [parts[0]] + parts[1..];
    }
  }

  /** Filtering a concatenation filters each piece and keeps their order; with
      `NonBlankSingleton` this determines the filter on every list. */
  lemma {:induction false} NonBlankAppend(a: seq<string>, b: seq<string>, ws: set<char>)
    ensures NonBlank(a + b, ws) == NonBlank(a, ws) + NonBlank(b, ws)
  {
    if a == [] {
      EmptyConcat(b);
      EmptyConcat(NonBlank(b, ws));
    } else {
      var rest := a[1..];
      NonBlankAppend(rest, b, ws);
      ConsConcat(a, b);
      NonBlankCons(a[0], rest + b, ws);
      NonBlankCons(a[0], rest, ws);
      var h := if Strip(a[0], ws) != [] then [a[0]] else [];
      ConcatAssoc(h, NonBlank(rest, ws), NonBlank(b, ws));
    }
  }

  /** A part that is not blank is kept, right after what the filter keeps of the
      parts before it. */
  lemma NonBlankKeptAt(parts: seq<string>, k: nat, ws: set<char>)
    requires k < |parts| && !IsBlank(parts[k], ws)
    ensures |NonBlank(parts[..k], ws)| < |NonBlank(parts, ws)|
    ensures NonBlank(parts, ws)[|NonBlank(parts[..k], ws)|] == parts[k]
  {
    assert parts == parts[..k] + ([parts[k]] + parts[k + 1..]);
    NonBlankAppend(parts[..k], [parts[k]] + parts[k + 1..], ws);
    NonBlankAppend([parts[k]], parts[k + 1..], ws);
    NonBlankSingleton(parts[k], ws);
  }

  lemma ConsConcat<T>(a: seq<T>, b: seq<T>)
    requires a != []
    ensures a == [a[0]] + a[1..] && a + b == [a[0]] + (a[1..] + b)
  {
  }

  lemma EmptyConcat<T>(s: seq<T>)
    ensures [] + s == s
  {
  }

  lemma ConcatAssoc<T>(x: seq<T>, y: seq<T>, z: seq<T>)
    ensures x + (y + z) == (x + y) + z
  {
  }

  /** One step of the filter: the first part, if kept, then the filter of the rest. */
  lemma NonBlankCons(p: string, rest: seq<string>, ws: set<char>)
    ensures NonBlank([p] + rest, ws) == (if Strip(p, ws) != [] then [p] else []) + NonBlank(rest, ws)
  {
    var s := [p] + rest;
    assert s[0] == p && s[1..] == rest;
  }

  /** A single part is kept exactly when it is not blank. */
  lemma NonBlankSingleton(p: string, ws: set<char>)
    ensures NonBlank([p], ws) == if IsBlank(p, ws) then [] else [p]
  {
    assert [p][1..] == [];
  }

  /** Two whitespace sets that agree on every character of `s` judge `s` alike. */
  lemma BlankAgrees(s: string, ws1: set<char>, ws2: set<char>)
    requires forall c :: c in s ==> (c in ws1 <==> c in ws2)
    ensures IsBlank(s, ws1) <==> IsBlank(s, ws2)
  {
    forall i | 0 <= i < |s| ensures s[i] in ws1 <==> s[i] in ws2 {
      assert s[i] in s;
    }
  }
}
