/** The string operations the LMGTFY command uses: `Split` on one separator
    character, dropping empty pieces, and `Join` with a separator. */
module Text {

  /** `s.Split(sep)`: the pieces between separators, empty ones included, so a
      string with k separators has k + 1 pieces. */
  function SplitOn(s: string, sep: char): (r: seq<string>)
    ensures forall i :: 0 <= i < |r| ==> sep !in r[i]
    ensures |r| == Count(s, sep) + 1
    ensures Join(r, sep) == s
  {
    if |s| == 0 then [""]
    else
      var rest := SplitOn(s[1..], sep);
      assert s == [s[0]] + s[1..];
      if s[0] == sep then
        JoinCons("", rest, sep);
        [""] + rest
      else
        var r := [[s[0]] + rest[0]] + rest[1..];
        assert forall i :: 1 <= i < |rest| ==> r[i] == rest[i];
        assert Join(r, sep) == s by {
          if |rest| > 1 {
            JoinCons(rest[0], rest[1..], sep);
            JoinCons([s[0]] + rest[0], rest[1..], sep);
          }
        }
        r
  }

  /** The number of occurrences of `c` in `s`. */
  function Count(s: string, c: char): nat {
    if |s| == 0 then 0 else (if s[0] == c then 1 else 0) + Count(s[1..], c)
  }

  /** The pieces that are not empty, in order (`RemoveEmptyEntries`): every
      non-empty piece is kept exactly as often as it occurs. */
  function NonEmpty(ws: seq<string>): (r: seq<string>)
    ensures forall i :: 0 <= i < |r| ==> r[i] != []
    ensures forall w :: multiset(r)[w] == if w != [] then multiset(ws)[w] else 0
  {
    if |ws| == 0 then []
    else
      var rest := NonEmpty(ws[1..]);
      assert multiset(ws) == multiset{ws[0]} + multiset(ws[1..]) by {
        assert ws == [ws[0]] + ws[1..];
      }
      if ws[0] == [] then rest
      else
        assert multiset([ws[0]] + rest) == multiset{ws[0]} + multiset(rest);
        [ws[0]] + rest
  }

  /** `s.Split(new[] { sep }, StringSplitOptions.RemoveEmptyEntries)`. */
  function Words(s: string, sep: char): seq<string> {
    NonEmpty(SplitOn(s, sep))
  }

  /** `string.Join(sep, ws)`. */
  function Join(ws: seq<string>, sep: char): string {
    if |ws| == 0 then ""
    else if |ws| == 1 then ws[0]
    else ws[0] + [sep] + Join(ws[1..], sep)
  }

  /** All pieces glued together with nothing in between. */
  function Concat(ws: seq<string>): string {
    if |ws| == 0 then "" else ws[0] + Concat(ws[1..])
  }

  /** `s` with every occurrence of `c` removed. */
  function Without(s: string, c: char): (r: string)
    ensures c !in r
    ensures |r| <= |s|
  {
    if |s| == 0 then "" else (if s[0] == c then "" else [s[0]]) + Without(s[1..], c)
  }

  /** Joining a piece in front of at least one more puts one separator
      between them. */
  lemma JoinCons(w: string, ws: seq<string>, sep: char)
    requires |ws| >= 1
    ensures Join([w] + ws, sep) == w + [sep] + Join(ws, sep)
  {
    assert ([w] + ws)[1..] == ws;
  }

  /** Dropping empty pieces works piece by piece, so it keeps the order of
      the pieces it keeps. */
  lemma {:induction false} NonEmptyAppend(a: seq<string>, b: seq<string>)
    ensures NonEmpty(a + b) == NonEmpty(a) + NonEmpty(b)
  {
    if |a| == 0 {
      assert a + b == b;
    } else {
      var ab := a + b;
      assert ab[0] == a[0];
      assert ab[1..] == a[1..] + b;
      NonEmptyAppend(a[1..], b);
      if a[0] != [] {
        assert NonEmpty(ab) == [a[0]] + NonEmpty(a[1..] + b);
        assert NonEmpty(a) == [a[0]] + NonEmpty(a[1..]);
      }
    }
  }

  // ---------------------------------------------------------------------------
  // Splitting

  /** The words of `s` are empty exactly when `s` consists of separators only. */
  lemma {:induction false} WordsEmptyIff(s: string, sep: char)
    ensures Words(s, sep) == [] <==> forall i :: 0 <= i < |s| ==> s[i] == sep
  {
    if |s| == 0 {
      assert SplitOn(s, sep) == [""];
      assert NonEmpty([""]) == NonEmpty([""][1..]);
    } else {
      WordsEmptyIff(s[1..], sep);
      var rest := SplitOn(s[1..], sep);
      if s[0] == sep {
        assert SplitOn(s, sep) == [""] + rest;
        assert ([""] + rest)[1..] == rest;
        assert NonEmpty(SplitOn(s, sep)) == NonEmpty(rest);
        assert (forall i :: 0 <= i < |s| ==> s[i] == sep) <==> (forall i :: 0 <= i < |s[1..]| ==> s[1..][i] == sep) by {
          if forall i :: 0 <= i < |s[1..]| ==> s[1..][i] == sep {
            forall i | 0 <= i < |s| ensures s[i] == sep {
              if i > 0 { assert s[i] == s[1..][i - 1]; }
            }
          }
        }
      } else {
        var first := [s[0]] + rest[0];
        assert SplitOn(s, sep)[0] == first && first != [];
        assert Words(s, sep) != [];
        assert !(s[0] == sep);
      }
    }
  }

  /** Splitting keeps every character except the separators: gluing the
      pieces back together gives `s` with the separators removed. */
  lemma {:induction false} ConcatSplit(s: string, sep: char)
    ensures Concat(SplitOn(s, sep)) == Without(s, sep)
  {
    if |s| > 0 {
      ConcatSplit(s[1..], sep);
      var rest := SplitOn(s[1..], sep);
      if s[0] != sep {
        var r := [[s[0]] + rest[0]] + rest[1..];
        assert Concat(rest) == rest[0] + Concat(rest[1..]);
        assert Concat(r) == ([s[0]] + rest[0]) + Concat(r[1..]);
        assert r[1..] == rest[1..];
      }
    }
  }

  /** Dropping empty pieces does not change what they glue up to. */
  lemma {:induction false} ConcatNonEmpty(ws: seq<string>)
    ensures Concat(NonEmpty(ws)) == Concat(ws)
  {
    if |ws| > 0 {
      ConcatNonEmpty(ws[1..]);
      if ws[0] == [] {
        assert Concat(ws) == [] + Concat(ws[1..]);
        assert [] + Concat(ws[1..]) == Concat(ws[1..]);
      }
    }
  }

  /** The words of `s`, glued together, are exactly the non-separator
      characters of `s`, in order. */
  lemma {:induction false} WordsKeepContent(s: string, sep: char)
    ensures Concat(Words(s, sep)) == Without(s, sep)
  {
    ConcatNonEmpty(SplitOn(s, sep));
    ConcatSplit(s, sep);
  }

  /** A word is a piece of the split: it never holds the separator. */
  lemma WordsNoSep(s: string, sep: char)
    ensures forall i :: 0 <= i < |Words(s, sep)| ==> sep !in Words(s, sep)[i]
  {
    var ps := SplitOn(s, sep);
    forall i | 0 <= i < |Words(s, sep)| ensures sep !in Words(s, sep)[i] {
      var w := Words(s, sep)[i];
      assert multiset(ps)[w] > 0;
      var k :| 0 <= k < |ps| && ps[k] == w;
    }
  }

  /** A word holds only characters of the text. */
  lemma WordsAvoid(s: string, sep: char, c: char)
    requires c !in s
    ensures forall i :: 0 <= i < |Words(s, sep)| ==> c !in Words(s, sep)[i]
  {
    var ws := Words(s, sep);
    WordsKeepContent(s, sep);
    forall i | 0 <= i < |ws| ensures c !in ws[i] {
      if c in ws[i] {
        ConcatHolds(ws, i, c);
        WithoutSubset(s, sep, c);
      }
    }
  }

  // ---------------------------------------------------------------------------
  // Joining

  /** Joining pieces that do not contain the separator and then splitting
      again gives back the pieces. */
  lemma {:induction false} SplitJoin(ws: seq<string>, sep: char)
    requires |ws| >= 1
    requires forall i :: 0 <= i < |ws| ==> sep !in ws[i]
    ensures SplitOn(Join(ws, sep), sep) == ws
  {
    if |ws| == 1 {
      SplitNoSep(ws[0], sep);
    } else {
      SplitJoin(ws[1..], sep);
      SplitAfterPiece(ws[0], Join(ws[1..], sep), sep);
      assert ws == [ws[0]] + ws[1..];
    }
  }

  /** A string without the separator splits into itself alone. */
  lemma {:induction false} SplitNoSep(w: string, sep: char)
    requires sep !in w
    ensures SplitOn(w, sep) == [w]
  {
    if |w| > 0 {
      SplitNoSep(w[1..], sep);
      assert [w[0]] + w[1..] == w;
    }
  }

  /** Splitting `w + [sep] + t`, where `w` has no separator, yields `w`
      followed by the pieces of `t`. */
  lemma {:induction false} SplitAfterPiece(w: string, t: string, sep: char)
    requires sep !in w
    ensures SplitOn(w + [sep] + t, sep) == [w] + SplitOn(t, sep)
  {
    var s := w + [sep] + t;
    if |w| == 0 {
      assert s[0] == sep;
      assert s[1..] == t;
      assert SplitOn(s, sep) == [""] + SplitOn(t, sep);
    } else {
      assert s[0] == w[0] && w[0] != sep;
      assert s[1..] == w[1..] + [sep] + t;
      SplitAfterPiece(w[1..], t, sep);
      var rest := SplitOn(s[1..], sep);
      assert rest[0] == w[1..] && rest[1..] == SplitOn(t, sep);
      assert SplitOn(s, sep) == [[s[0]] + rest[0]] + rest[1..];
      assert [w[0]] + w[1..] == w;
    }
  }

  /** Joining non-empty pieces that do not contain the separator gives a
      string that neither starts nor ends with it and never holds two in a row. */
  lemma {:induction false} JoinShape(ws: seq<string>, sep: char)
    requires |ws| >= 1
    requires forall i :: 0 <= i < |ws| ==> ws[i] != [] && sep !in ws[i]
    ensures var q := Join(ws, sep);
      && |q| > 0 && q[0] != sep && q[|q| - 1] != sep
      && forall i :: 0 <= i < |q| - 1 ==> !(q[i] == sep && q[i + 1] == sep)
  {
    if |ws| > 1 {
      JoinShape(ws[1..], sep);
      var t := Join(ws[1..], sep);
      var q := ws[0] + [sep] + t;
      assert Join(ws, sep) == q;
      assert q[0] == ws[0][0];
      assert q[|q| - 1] == t[|t| - 1];
      forall i | 0 <= i < |q| - 1 ensures !(q[i] == sep && q[i + 1] == sep) {
        if i < |ws[0]| - 1 {
          assert q[i] == ws[0][i];
        } else if i == |ws[0]| - 1 {
          assert q[i] == ws[0][i];
        } else if i == |ws[0]| {
          assert q[i + 1] == t[0];
        } else {
          assert q[i] == t[i - |ws[0]| - 1] && q[i + 1] == t[i - |ws[0]|];
        }
      }
    }
  }

  /** A character other than the separator is in the joined string exactly
      when it is in one of the pieces. */
  lemma {:induction false} JoinChars(ws: seq<string>, sep: char, c: char)
    requires c != sep
    ensures c in Join(ws, sep) <==> exists i :: 0 <= i < |ws| && c in ws[i]
  {
    if |ws| > 1 {
      JoinChars(ws[1..], sep, c);
      var t := Join(ws[1..], sep);
      assert Join(ws, sep) == ws[0] + [sep] + t;
      assert c in ws[0] + [sep] + t <==> c in ws[0] || c in t;
      if exists i :: 0 <= i < |ws| && c in ws[i] {
        var i :| 0 <= i < |ws| && c in ws[i];
        if i > 0 { assert ws[1..][i - 1] == ws[i]; }
      }
      if exists i :: 0 <= i < |ws[1..]| && c in ws[1..][i] {
        var i :| 0 <= i < |ws[1..]| && c in ws[1..][i];
        assert ws[i + 1] == ws[1..][i];
      }
    }
  }

  // ---------------------------------------------------------------------------
  // Helpers

  /** A character in one piece is in the glued pieces. */
  lemma {:induction false} ConcatHolds(ws: seq<string>, i: nat, c: char)
    requires i < |ws| && c in ws[i]
    ensures c in Concat(ws)
    decreases i
  {
    if i > 0 {
      ConcatHolds(ws[1..], i - 1, c);
    }
  }

  /** Removing characters never introduces one. */
  lemma {:induction false} WithoutSubset(s: string, removed: char, c: char)
    requires c in Without(s, removed)
    ensures c in s
  {
    if |s| > 0 && c != s[0] {
      WithoutSubset(s[1..], removed, c);
    }
  }

  /** Removing the separator from a joined string glues the pieces, when no
      piece contains the separator. */
  lemma {:induction false} JoinWithout(ws: seq<string>, sep: char)
    requires forall i :: 0 <= i < |ws| ==> sep !in ws[i]
    ensures Without(Join(ws, sep), sep) == Concat(ws)
  {
    if |ws| == 1 {
      WithoutAbsent(ws[0], sep);
      assert Concat(ws) == ws[0] + Concat([]);
    } else if |ws| > 1 {
      var j := Join(ws[1..], sep);
      var tail := [sep] + j;
      assert Join(ws, sep) == ws[0] + tail;
      JoinWithout(ws[1..], sep);
      WithoutAbsent(ws[0], sep);
      WithoutAppend(ws[0], tail, sep);
      assert tail[0] == sep && tail[1..] == j;
      assert Without(tail, sep) == Without(j, sep);
      assert Concat(ws) == ws[0] + Concat(ws[1..]);
    }
  }

  /** Removing a character that does not occur changes nothing. */
  lemma {:induction false} WithoutAbsent(s: string, c: char)
    requires c !in s
    ensures Without(s, c) == s
  {
    if |s| > 0 {
      assert s[0] != c;
      assert c !in s[1..] by {
        forall i | 0 <= i < |s[1..]| ensures s[1..][i] != c {
          assert s[1..][i] == s[i + 1];
        }
      }
      WithoutAbsent(s[1..], c);
      assert Without(s, c) == [s[0]] + s[1..];
      assert s == [s[0]] + s[1..];
    }
  }

  /** Removal distributes over concatenation. */
  lemma {:induction false} WithoutAppend(a: string, b: string, c: char)
    ensures Without(a + b, c) == Without(a, c) + Without(b, c)
  {
    if |a| > 0 {
      WithoutAppend(a[1..], b, c);
      var ab := a + b;
      assert ab[0] == a[0];
      assert ab[1..] == a[1..] + b;
      var h: string := if a[0] == c then "" else [a[0]];
      assert Without(ab, c) == h + Without(a[1..] + b, c);
      assert Without(a, c) == h + Without(a[1..], c);
    } else {
      assert a + b == b;
    }
  }

  /** Dropping empty pieces from pieces that are all non-empty changes nothing. */
  lemma {:induction false} NonEmptyKeeps(ws: seq<string>)
    requires forall i :: 0 <= i < |ws| ==> ws[i] != []
    ensures NonEmpty(ws) == ws
  {
    if |ws| > 0 {
      NonEmptyKeeps(ws[1..]);
      assert ws == [ws[0]] + ws[1..];
    }
  }
}
