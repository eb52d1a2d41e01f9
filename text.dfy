/**
 * The part of Go's `strings` package that the bot relies on, over `string`
 * (a sequence of characters): TrimSpace, Split, Join, Replace and TrimSuffix.
 */
module Text {

  /** The characters `strings.TrimSpace` removes (the ASCII subset of Unicode white space, plus NEL and NBSP). */
  predicate IsSpace(c: char)
  {
    c == ' ' || c == '\t' || c == '\n' || c == '\r' || c == '\U{000B}' || c == '\U{000C}'
    || c == '\U{0085}' || c == '\U{00A0}'
  }

  predicate AllSpace(s: string)
  {
    forall i | 0 <= i < |s| :: IsSpace(s[i])
  }

  /** `a` is a suffix of `b`. */
  predicate IsSuffix(a: string, b: string)
  {
    |a| <= |b| && b[|b| - |a|..] == a
  }

  lemma DropIsSuffix(s: string, i: nat)
    requires i <= |s|
    ensures IsSuffix(s[i..], s)
  {
  }

  lemma SuffixTransitive(a: string, b: string, c: string)
    requires IsSuffix(a, b) && IsSuffix(b, c)
    ensures IsSuffix(a, c)
  {
    assert c[|c| - |b|..][|b| - |a|..] == c[|c| - |a|..];
  }

  /** Neither end of `s` is white space. */
  predicate IsTrimmed(s: string)
  {
    s == [] || (!IsSpace(s[0]) && !IsSpace(s[|s| - 1]))
  }

  /** The first position at or after `i` that is not white space, or |s|. */
  function LeadingEnd(s: string, i: nat): (n: nat)
    requires i <= |s|
    ensures i <= n <= |s|
    ensures forall k | i <= k < n :: IsSpace(s[k])
    ensures n == |s| || !IsSpace(s[n])
    decreases |s| - i
  {
    if i < |s| && IsSpace(s[i]) then LeadingEnd(s, i + 1) else i
  }

  /** The position just after the last character before `j` that is not white space,
      or 0. */
  function TrailingStart(s: string, j: nat): (n: nat)
    requires j <= |s|
    ensures n <= j
    ensures forall k | n <= k < j :: IsSpace(s[k])
    ensures n == 0 || !IsSpace(s[n - 1])
  {
    if j > 0 && IsSpace(s[j - 1]) then TrailingStart(s, j - 1) else j
  }

  /** Drops leading white space. */
  function TrimLeft(s: string): (r: string)
    ensures IsSuffix(r, s)
    ensures AllSpace(s[..|s| - |r|])
    ensures r == [] || !IsSpace(r[0])
  {
    s[LeadingEnd(s, 0)..]
  }

  /** Drops trailing white space. */
  function TrimRight(s: string): (r: string)
    ensures r <= s
    ensures AllSpace(s[|r|..])
    ensures r == [] || !IsSpace(r[|r| - 1])
  {
    s[..TrailingStart(s, |s|)]
  }

  /** `strings.TrimSpace`. */
  function TrimSpace(s: string): (r: string)
    ensures IsTrimmed(r)
  {
    TrimRight(TrimLeft(s))
  }

  /** The scan for the first non-blank stops exactly at `n` when everything from `i`
      up to `n` is blank and `n` is not. */
  lemma {:induction false} LeadingEndAt(s: string, i: nat, n: nat)
    requires i <= n <= |s|
    requires forall k | i <= k < n :: IsSpace(s[k])
    requires n == |s| || !IsSpace(s[n])
    ensures LeadingEnd(s, i) == n
    decreases n - i
  {
    if i < n {
      LeadingEndAt(s, i + 1, n);
    }
  }

  lemma {:induction false} TrailingStartAt(s: string, j: nat, n: nat)
    requires n <= j <= |s|
    requires forall k | n <= k < j :: IsSpace(s[k])
    requires n == 0 || !IsSpace(s[n - 1])
    ensures TrailingStart(s, j) == n
    decreases j - n
  {
    if n < j {
      TrailingStartAt(s, j - 1, n);
    }
  }

  lemma TrimLeftOf(pre: string, rest: string)
    requires AllSpace(pre)
    requires rest == [] || !IsSpace(rest[0])
    ensures TrimLeft(pre + rest) == rest
  {
    var s := pre + rest;
    LeadingEndAt(s, 0, |pre|);
    assert s[|pre|..] == rest;
  }

  lemma TrimRightOf(rest: string, post: string)
    requires AllSpace(post)
    requires rest == [] || !IsSpace(rest[|rest| - 1])
    ensures TrimRight(rest + post) == rest
  {
    var s := rest + post;
    TrailingStartAt(s, |s|, |rest|);
    assert s[..|rest|] == rest;
  }

  /** TrimSpace removes exactly the surrounding white space: whatever `core` is
      wrapped in, as long as neither end of it is blank, TrimSpace gives it back. */
  lemma TrimSpaceOf(pre: string, core: string, post: string)
    requires AllSpace(pre) && AllSpace(post) && IsTrimmed(core)
    ensures TrimSpace(pre + core + post) == core
  {
    if core == [] {
      assert pre + core + post == pre + post;
      assert AllSpace(pre + post);
      TrimLeftOf(pre + post, []);
      assert pre + post + [] == pre + post;
      TrimRightOf([], []);
    } else {
      assert pre + core + post == pre + (core + post);
      TrimLeftOf(pre, core + post);
      TrimRightOf(core, post);
    }
  }

  /** Trimming twice is trimming once. */
  lemma TrimSpaceIdempotent(s: string)
    ensures TrimSpace(TrimSpace(s)) == TrimSpace(s)
  {
    var t := TrimSpace(s);
    assert [] + t + [] == t;
    TrimSpaceOf([], t, []);
  }

  /** Position of the first `c` in `s`. */
  function IndexOf(s: string, c: char): (i: nat)
    requires c in s
    ensures i < |s| && s[i] == c && c !in s[..i]
  {
    if s[0] == c then 0 else IndexOf(s[1..], c) + 1
  }

  /** `strings.Split(s, string(sep))`: the pieces between the separators, in order. */
  function Split(s: string, sep: char): (parts: seq<string>)
    ensures |parts| >= 1
    ensures |parts| == 1 <==> sep !in s
    ensures forall k | 0 <= k < |parts| :: sep !in parts[k]
    decreases |s|
  {
    if sep !in s then [s]
    else
      var i := IndexOf(s, sep);
      [s[..i]] + Split(s[i + 1..], sep)
  }

  /** `strings.Join(parts, sep)`. */
  function Join(parts: seq<string>, sep: string): string
  {
    if parts == [] then ""
    else if |parts| == 1 then parts[0]
    else parts[0] + sep + Join(parts[1..], sep)
  }

  /** The plain concatenation of `parts`, built from the left. */
  function Concat(parts: seq<string>): string
  {
    if parts == [] then "" else Concat(parts[..|parts| - 1]) + parts[|parts| - 1]
  }

  lemma {:induction false} ConcatCons(p: string, parts: seq<string>)
    ensures Concat([p] + parts) == p + Concat(parts)
    decreases |parts|
  {
    if parts != [] {
      var ps := [p] + parts;
      assert ps[..|ps| - 1] == [p] + parts[..|parts| - 1];
      ConcatCons(p, parts[..|parts| - 1]);
    } else {
      assert [p] + parts == [p];
      assert [p][..0] == [];
    }
  }

  /** Joining with the empty separator is plain concatenation. */
  lemma {:induction false} JoinWithoutSeparator(parts: seq<string>)
    ensures Join(parts, "") == Concat(parts)
  {
    if |parts| == 1 {
      assert parts[..0] == [];
    } else if |parts| > 1 {
      JoinWithoutSeparator(parts[1..]);
      assert parts == [parts[0]] + parts[1..];
      ConcatCons(parts[0], parts[1..]);
    }
  }

  /** Joining the pieces of a split with the separator gives back the string. */
  lemma {:induction false} JoinSplit(s: string, sep: char)
    ensures Join(Split(s, sep), [sep]) == s
    decreases |s|
  {
    if sep in s {
      var head, rest := CutAtFirst(s, sep);
      SplitAt(head, sep, rest);
      JoinSplit(rest, sep);
      var tail := Split(rest, sep);
      assert ([head] + tail)[1..] == tail;
    }
  }

  /** Splitting a join of separator-free pieces gives back the pieces. */
  lemma {:induction false} SplitJoin(parts: seq<string>, sep: char)
    requires parts != []
    requires forall k | 0 <= k < |parts| :: sep !in parts[k]
    ensures Split(Join(parts, [sep]), sep) == parts
  {
    if |parts| > 1 {
      var head, tail := parts[0], parts[1..];
      assert sep !in head;
      assert forall k | 0 <= k < |tail| :: sep !in tail[k] by {
        forall k | 0 <= k < |tail| ensures sep !in tail[k] {
          assert tail[k] == parts[k + 1];
        }
      }
      SplitJoin(tail, sep);
      SplitAt(head, sep, Join(tail, [sep]));
      assert parts == [head] + tail;
    }
  }

  /** Splitting at a first separator. */
  lemma SplitAt(head: string, sep: char, rest: string)
    requires sep !in head
    ensures Split(head + [sep] + rest, sep) == [head] + Split(rest, sep)
  {
    var s := head + [sep] + rest;
    assert s[|head|] == sep && s[..|head|] == head;
    assert s[|head| + 1..] == rest;
    IndexOfFirst(s, sep, |head|);
  }

  lemma IndexOfFirst(s: string, c: char, i: nat)
    requires i < |s| && s[i] == c && c !in s[..i]
    ensures IndexOf(s, c) == i
  {
  }

  /** The first two pieces of a split that has at least two: the first ends at the first
      separator, the second runs to the next separator or to the end. */
  lemma SplitFirstTwo(s: string, sep: char)
    requires sep in s
    ensures |Split(s, sep)| >= 2
    ensures Split(s, sep)[0] + [sep] + Split(s, sep)[1] == s
         || Split(s, sep)[0] + [sep] + Split(s, sep)[1] + [sep] <= s
  {
    var head, rest := CutAtFirst(s, sep);
    SplitAt(head, sep, rest);
    if sep in rest {
      var mid, tail := CutAtFirst(rest, sep);
      SplitAt(mid, sep, tail);
      assert Split(s, sep)[1] == mid;
      PrefixOfTwo(head, mid, tail, sep);
    }
  }

  /** The text before the first `sep` and the text after it. */
  lemma CutAtFirst(s: string, sep: char) returns (head: string, rest: string)
    requires sep in s
    ensures s == head + [sep] + rest && sep !in head
  {
    var i := IndexOf(s, sep);
    head, rest := s[..i], s[i + 1..];
    assert s == head + [sep] + rest;
  }

  lemma PrefixOfTwo(head: string, mid: string, tail: string, sep: char)
    ensures head + [sep] + mid + [sep] <= head + [sep] + (mid + [sep] + tail)
  {
    assert head + [sep] + (mid + [sep] + tail) == (head + [sep] + mid + [sep]) + tail;
  }

  /** `strings.Replace(s, [from], to, -1)` for single characters. */
  function ReplaceAll(s: string, from: char, to: char): (r: string)
    ensures |r| == |s|
    ensures forall i | 0 <= i < |s| :: r[i] == (if s[i] == from then to else s[i])
  {
    if s == [] then [] else [if s[0] == from then to else s[0]] + ReplaceAll(s[1..], from, to)
  }

  /** Replacing every `from` leaves none behind (when the replacement differs). */
  lemma ReplaceAllRemoves(s: string, from: char, to: char)
    requires from != to
    ensures from !in ReplaceAll(s, from, to)
  {
    var r := ReplaceAll(s, from, to);
    forall i | 0 <= i < |r| ensures r[i] != from {
    }
  }

  /** Replacing back undoes the replacement when `to` did not occur beforehand. */
  lemma ReplaceAllRoundTrip(s: string, from: char, to: char)
    requires to !in s
    ensures ReplaceAll(ReplaceAll(s, from, to), to, from) == s
  {
    var r := ReplaceAll(ReplaceAll(s, from, to), to, from);
    forall i | 0 <= i < |s| ensures r[i] == s[i] {
      assert s[i] != to;
    }
  }

  /** `strings.TrimSuffix`. */
  function TrimSuffix(s: string, suffix: string): (r: string)
    ensures |suffix| <= |s| && s[|s| - |suffix|..] == suffix ==> r + suffix == s
    ensures !(|suffix| <= |s| && s[|s| - |suffix|..] == suffix) ==> r == s
  {
    if |suffix| <= |s| && s[|s| - |suffix|..] == suffix then s[..|s| - |suffix|] else s
  }
}
