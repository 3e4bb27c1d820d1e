/** The few `System.String` services the core relies on: `IsNullOrWhiteSpace`,
    ordinal case-insensitive equality and `Split(sep, RemoveEmptyEntries)`. */
module Text {
  import opened Wrappers

  /** `char.IsWhiteSpace`: the Unicode space, line and paragraph separators plus
      the control characters U+0009..U+000D and U+0085.  Below U+0100 these are
      exactly the tab, line feed, vertical tab, form feed, carriage return,
      space, next line and no-break space. */
  function IsWhiteSpace(c: char): (r: bool)
    ensures c as int < 0x100 ==>
      (r <==> c in {'\t', '\n', '\U{0B}', '\U{0C}', '\r', ' ', '\U{85}', '\U{A0}'})
  {
    var n := c as int;
    || 0x09 <= n <= 0x0D || n == 0x20 || n == 0x85 || n == 0xA0 || n == 0x1680
    || 0x2000 <= n <= 0x200A || n == 0x2028 || n == 0x2029 || n == 0x202F
    || n == 0x205F || n == 0x3000
  }

  /** `string.IsNullOrWhiteSpace` on a non-null string, scanning from the front
      and stopping at the first character that is not white space: true exactly
      when every character is white space, the empty string included. */
  function IsNullOrWhiteSpace(s: string): (r: bool)
    ensures r <==> forall i :: 0 <= i < |s| ==> IsWhiteSpace(s[i])
  {
    if s == [] then true
    else if !IsWhiteSpace(s[0]) then false
    else
      var rest := IsNullOrWhiteSpace(s[1..]);
      assert forall i :: 1 <= i < |s| ==> s[i] == s[1..][i - 1];
      rest
  }

  /** Ordinal case folding, restricted to the ASCII letters. */
  function FoldCase(c: char): char {
    if 'a' <= c <= 'z' then (c as int - 32) as char else c
  }

  /** `string.Equals(a, b, StringComparison.OrdinalIgnoreCase)`: equal lengths and
      equal characters after folding, which is equality of the upper-cased
      strings, so it is an equivalence relation. */
  function EqualsIgnoreCase(a: string, b: string): (r: bool)
    ensures r <==> ToUpper(a) == ToUpper(b)
  {
    FoldedEquality(a, b);
    |a| == |b| && forall i :: 0 <= i < |a| ==> FoldCase(a[i]) == FoldCase(b[i])
  }

  function ToUpper(s: string): (u: string)
    ensures |u| == |s|
    ensures forall i :: 0 <= i < |s| ==> u[i] == FoldCase(s[i])
  {
    if s == [] then [] else [FoldCase(s[0])] + ToUpper(s[1..])
  }

  lemma FoldedEquality(a: string, b: string)
    ensures (|a| == |b| && forall i :: 0 <= i < |a| ==> FoldCase(a[i]) == FoldCase(b[i]))
            <==> ToUpper(a) == ToUpper(b)
  {
    if ToUpper(a) == ToUpper(b) {
      assert |a| == |b|;
      forall i | 0 <= i < |a|
        ensures FoldCase(a[i]) == FoldCase(b[i])
      {
        assert ToUpper(a)[i] == ToUpper(b)[i];
      }
    }
  }

  /** `s.Split(sep)`: the maximal separator-free pieces, empty ones included. */
  function SplitAll(s: string, sep: char): (parts: seq<string>)
    ensures |parts| >= 1
    ensures forall i :: 0 <= i < |parts| ==> sep !in parts[i]
  {
    if s == [] then [[]]
    else
      var rest := SplitAll(s[1..], sep);
      if s[0] == sep then [[]] + rest
      else [[s[0]] + rest[0]] + rest[1..]
  }

  /** `string.Join(sep, parts)`. */
  function Join(parts: seq<string>, sep: char): string
    requires |parts| >= 1
  {
    if |parts| == 1 then parts[0] else parts[0] + [sep] + Join(parts[1..], sep)
  }

  /** Splitting loses nothing: joining the pieces back gives the input. */
  lemma {:induction false} JoinSplitAll(s: string, sep: char)
    ensures Join(SplitAll(s, sep), sep) == s
  {
    if s != [] {
      var rest := SplitAll(s[1..], sep);
      JoinSplitAll(s[1..], sep);
      if s[0] == sep {
        assert ([[]] + rest)[1..] == rest;
      } else {
        var parts := [[s[0]] + rest[0]] + rest[1..];
        if |rest| == 1 {
          assert parts == [[s[0]] + rest[0]];
        } else {
          assert parts[1..] == rest[1..];
          assert Join(rest, sep) == rest[0] + [sep] + Join(rest[1..], sep);
        }
      }
    }
  }

  /** Splitting is also a left inverse of joining separator-free pieces. */
  lemma {:induction false} SplitAllJoin(parts: seq<string>, sep: char)
    requires |parts| >= 1
    requires forall i :: 0 <= i < |parts| ==> sep !in parts[i]
    ensures SplitAll(Join(parts, sep), sep) == parts
    decreases |Join(parts, sep)|, |parts|
  {
    var j := Join(parts, sep);
    if parts[0] == [] {
      if |parts| > 1 {
        assert j == [sep] + Join(parts[1..], sep);
        assert j[1..] == Join(parts[1..], sep);
        SplitAllJoin(parts[1..], sep);
        assert parts == [[]] + parts[1..];
      }
    } else {
      var p0 := parts[0];
      var tail := [p0[1..]] + parts[1..];
      assert forall i :: 0 <= i < |tail| ==> sep !in tail[i] by {
        assert forall k :: 0 <= k < |p0[1..]| ==> p0[1..][k] == p0[k + 1];
      }
      assert Join(tail, sep) == j[1..] by {
        if |parts| == 1 {
        } else {
          assert tail[1..] == parts[1..];
        }
      }
      assert j[0] == p0[0] && p0[0] != sep;
      SplitAllJoin(tail, sep);
      assert [[p0[0]] + p0[1..]] + tail[1..] == parts by {
        assert [p0[0]] + p0[1..] == p0;
        assert tail[1..] == parts[1..];
      }
    }
  }

  /** The first piece is everything up to the first separator. */
  lemma {:induction false} SplitAllCons(p: string, sep: char, rest: string)
    requires sep !in p
    ensures SplitAll(p + [sep] + rest, sep) == [p] + SplitAll(rest, sep)
  {
    var s := p + [sep] + rest;
    if p == [] {
      assert s == [sep] + rest && s[1..] == rest;
    } else {
      assert s[0] == p[0] && s[1..] == p[1..] + [sep] + rest;
      SplitAllCons(p[1..], sep, rest);
      assert [p[0]] + p[1..] == p;
    }
  }

  /** A string without the separator splits into itself. */
  lemma {:induction false} SplitWithoutSeparator(s: string, sep: char)
    requires sep !in s
    ensures SplitAll(s, sep) == [s]
    ensures s != [] ==> SplitNonEmpty(s, sep) == [s]
  {
    if s != [] {
      SplitWithoutSeparator(s[1..], sep);
      assert [s[0]] + s[1..] == s;
      assert [s][1..] == [];
      assert RemoveEmpty([s]) == [s] + RemoveEmpty([]);
      assert SplitNonEmpty(s, sep) == RemoveEmpty(SplitAll(s, sep));
    }
  }

  /** Keeps the non-empty strings, in order. */
  function RemoveEmpty(parts: seq<string>): (r: seq<string>)
    ensures forall i :: 0 <= i < |r| ==> r[i] != []
    ensures forall p :: p in r <==> p in parts && p != []
  {
    if parts == [] then []
    else if parts[0] == [] then RemoveEmpty(parts[1..])
    else [parts[0]] + RemoveEmpty(parts[1..])
  }

  /** `RemoveEmptyEntries` keeps order and duplicates: it filters each piece on
      its own and concatenates the results. */
  lemma {:induction false} RemoveEmptyAppend(a: seq<string>, b: seq<string>)
    ensures RemoveEmpty(a + b) == RemoveEmpty(a) + RemoveEmpty(b)
  {
    if a == [] {
      assert a + b == b;
    } else {
      assert (a + b)[0] == a[0] && (a + b)[1..] == a[1..] + b;
      RemoveEmptyAppend(a[1..], b);
    }
  }

  lemma RemoveEmptyOne(p: string)
    ensures RemoveEmpty([p]) == if p == [] then [] else [p]
  {
    assert [p][1..] == [];
  }

  /** `s.Split(sep, StringSplitOptions.RemoveEmptyEntries)`. */
  function SplitNonEmpty(s: string, sep: char): (r: seq<string>)
    ensures forall i :: 0 <= i < |r| ==> r[i] != [] && sep !in r[i]
    ensures forall p :: p in r <==> p in SplitAll(s, sep) && p != []
  {
    var all := SplitAll(s, sep);
    var r := RemoveEmpty(all);
    assert forall i :: 0 <= i < |r| ==> r[i] in all;
    r
  }

  /** The entries come in the order of the input: the piece before the first
      separator, if non-empty, then the entries of the rest. */
  lemma SplitNonEmptyCons(p: string, sep: char, rest: string)
    requires sep !in p
    ensures SplitNonEmpty(p + [sep] + rest, sep)
            == (if p == [] then [] else [p]) + SplitNonEmpty(rest, sep)
  {
    SplitAllCons(p, sep, rest);
    RemoveEmptyAppend([p], SplitAll(rest, sep));
    RemoveEmptyOne(p);
  }

  /** Splits at the first occurrence of `c`: what comes before and after it. */
  function SplitAtFirst(s: string, c: char): (r: Option<(string, string)>)
    ensures r.None? <==> c !in s
    ensures r.Some? ==> s == r.value.0 + [c] + r.value.1 && c !in r.value.0
  {
    if s == [] then None
    else if s[0] == c then Some(([], s[1..]))
    else match SplitAtFirst(s[1..], c)
      case None => None
      case Some((before, after)) => Some(([s[0]] + before, after))
  }

  /** The split point is the first `c`, so a prefix free of `c` is recovered. */
  lemma {:induction false} SplitAtFirstOfJoin(before: string, c: char, after: string)
    requires c !in before
    ensures SplitAtFirst(before + [c] + after, c) == Some((before, after))
  {
    if before != [] {
      var s := before + [c] + after;
      assert s[0] == before[0] && s[1..] == before[1..] + [c] + after;
      SplitAtFirstOfJoin(before[1..], c, after);
      assert [before[0]] + before[1..] == before;
    }
  }
}
