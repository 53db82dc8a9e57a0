/**
 * SQLite's `LIKE` operator as used by the message search: `text LIKE '%' || query || '%'`.
 * Without an ESCAPE clause, `%` in the pattern matches any run of characters (also none),
 * `_` matches exactly one character, and every other character matches itself up to
 * ASCII case (SQLite folds only 'A'..'Z'; `case_sensitive_like` is off by default).
 */
module SqlLike {

  /** ASCII-only lower-casing, as SQLite's built-in LIKE applies it. */
  function FoldAscii(c: char): char
  {
    if 'A' <= c <= 'Z' then (c as int - 'A' as int + 'a' as int) as char else c
  }

  /** One text character against one non-`%` pattern character. */
  predicate CharLike(c: char, p: char)
  {
    p == '_' || FoldAscii(c) == FoldAscii(p)
  }

  /** `s LIKE p`, whole-string match; a pattern without `%` only matches texts of its own length. */
  predicate Like(s: string, p: string): (r: bool)
    ensures r && (forall i :: 0 <= i < |p| ==> p[i] != '%') ==> |s| == |p|
    decreases |s| + |p|
  {
    if p == [] then s == []
    else if p[0] == '%' then Like(s, p[1..]) || (s != [] && Like(s[1..], p))
    else
      assert forall i :: 0 <= i < |p| - 1 ==> p[1..][i] == p[i + 1];
      s != [] && CharLike(s[0], p[0]) && Like(s[1..], p[1..])
  }

  /** The filter of the search: `text LIKE '%query%'`; with an empty query (`'%%'`) every text passes. */
  predicate LikeMatch(text: string, query: string): (r: bool)
    ensures query == "" ==> r
  {
    LikeAnything(text);
    assert ("%" + query + "%")[0] == '%' && ("%" + query + "%")[1..] == query + "%";
    Like(text, "%" + query + "%")
  }

  /** Equal strings once ASCII case is folded. */
  predicate FoldEq(a: string, b: string)
  {
    |a| == |b| && forall i :: 0 <= i < |a| ==> FoldAscii(a[i]) == FoldAscii(b[i])
  }

  /** `query` occurs in `text` at position `i`, up to ASCII case. */
  predicate OccursAt(text: string, query: string, i: int)
  {
    0 <= i && i + |query| <= |text| && FoldEq(text[i..i + |query|], query)
  }

  /** Case-insensitive (ASCII) substring containment: the reference the LIKE filter is compared with. */
  predicate ContainsFolded(text: string, query: string)
  {
    exists i :: 0 <= i <= |text| && OccursAt(text, query, i)
  }

  /** No character of `q` is a LIKE wildcard. */
  predicate NoWildcards(q: string)
  {
    forall i :: 0 <= i < |q| ==> q[i] != '%' && q[i] != '_'
  }

  /** Pattern concatenation: matching pieces compose. */
  lemma {:induction false} LikeConcat(s1: string, p1: string, s2: string, p2: string)
    requires Like(s1, p1) && Like(s2, p2)
    ensures Like(s1 + s2, p1 + p2)
    decreases |s1| + |p1|
  {
    if p1 == [] {
      assert s1 + s2 == s2 && p1 + p2 == p2;
    } else if p1[0] == '%' {
      assert (p1 + p2)[0] == '%' && (p1 + p2)[1..] == p1[1..] + p2;
      if Like(s1, p1[1..]) {
        LikeConcat(s1, p1[1..], s2, p2);
      } else {
        LikeConcat(s1[1..], p1, s2, p2);
        assert (s1 + s2)[1..] == s1[1..] + s2;
      }
    } else {
      LikeConcat(s1[1..], p1[1..], s2, p2);
      assert (s1 + s2)[1..] == s1[1..] + s2;
      assert (p1 + p2)[0] == p1[0] && (p1 + p2)[1..] == p1[1..] + p2;
    }
  }

  /** A lone `%` matches every string. */
  lemma {:induction false} LikeAnything(s: string)
    ensures Like(s, "%")
    decreases |s|
  {
    assert "%"[1..] == [];
    if s != [] {
      LikeAnything(s[1..]);
    }
  }

  /** Every pattern matches each text that equals it up to ASCII case, wildcards included. */
  lemma {:induction false} LikeFoldedSelf(s: string, p: string)
    requires FoldEq(s, p)
    ensures Like(s, p)
    decreases |p|
  {
    if p != [] {
      assert FoldEq(s[1..], p[1..]) by {
        forall i | 0 <= i < |s| - 1 ensures FoldAscii(s[1..][i]) == FoldAscii(p[1..][i]) {
          assert FoldAscii(s[i + 1]) == FoldAscii(p[i + 1]);
        }
      }
      LikeFoldedSelf(s[1..], p[1..]);
      if p[0] == '%' {
        assert Like(s[1..], p);
      } else {
        assert FoldAscii(s[0]) == FoldAscii(p[0]);
      }
    }
  }

  /**
   * A text that contains the query (up to ASCII case) always passes the filter,
   * whatever wildcards the query holds.
   */
  lemma SubstringMatches(text: string, query: string, i: int)
    requires OccursAt(text, query, i)
    ensures LikeMatch(text, query)
  {
    var pre, mid, post := text[..i], text[i..i + |query|], text[i + |query|..];
    assert text == pre + mid + post;
    LikeAnything(pre);
    LikeFoldedSelf(mid, query);
    LikeConcat(pre, "%", mid, query);
    LikeAnything(post);
    LikeConcat(pre + mid, "%" + query, post, "%");
  }

  /** A leading `%` skips some prefix of the text. */
  lemma {:induction false} LikeLeadingPercent(s: string, r: string) returns (i: nat)
    requires Like(s, "%" + r)
    ensures i <= |s| && Like(s[i..], r)
    decreases |s|
  {
    var p := "%" + r;
    assert p[0] == '%' && p[1..] == r;
    if Like(s, r) {
      i := 0;
    } else {
      var j := LikeLeadingPercent(s[1..], r);
      i := j + 1;
      assert s[1..][j..] == s[i..];
    }
  }

  /** A wildcard-free pattern followed by `%` matches exactly the texts it prefixes (up to case). */
  lemma {:induction false} LikeLiteralPrefix(s: string, q: string)
    requires NoWildcards(q) && Like(s, q + "%")
    ensures |q| <= |s| && FoldEq(s[..|q|], q)
    decreases |q|
  {
    if q != [] {
      var p := q + "%";
      assert p[0] == q[0] && p[1..] == q[1..] + "%";
      assert q[0] != '%' && q[0] != '_';
      assert NoWildcards(q[1..]) by {
        forall i | 0 <= i < |q| - 1 ensures q[1..][i] != '%' && q[1..][i] != '_' {
          assert q[1..][i] == q[i + 1];
        }
      }
      LikeLiteralPrefix(s[1..], q[1..]);
      forall i | 0 <= i < |q| ensures FoldAscii(s[..|q|][i]) == FoldAscii(q[i]) {
        if i > 0 {
          assert s[..|q|][i] == s[1..][..|q| - 1][i - 1];
          assert q[i] == q[1..][i - 1];
        }
      }
    }
  }

  /**
   * For a query without `%` or `_`, the LIKE filter is exactly ASCII-case-insensitive
   * substring containment, in both directions.
   */
  lemma LikeMatchIsContainment(text: string, query: string)
    requires NoWildcards(query)
    ensures LikeMatch(text, query) <==> ContainsFolded(text, query)
  {
    if LikeMatch(text, query) {
      assert "%" + query + "%" == "%" + (query + "%");
      var i := LikeLeadingPercent(text, query + "%");
      LikeLiteralPrefix(text[i..], query);
      assert text[i..][..|query|] == text[i..i + |query|];
      assert OccursAt(text, query, i);
    }
    if ContainsFolded(text, query) {
      var i :| 0 <= i <= |text| && OccursAt(text, query, i);
      SubstringMatches(text, query, i);
    }
  }

  /** `_` in a query is a wildcard: "cat" passes a search for "c_t" though it does not contain it. */
  lemma UnderscoreIsWildcard()
    ensures LikeMatch("cat", "c_t") && !ContainsFolded("cat", "c_t")
  {
    var t, q := "cat", "c_t";
    assert Like(t[3..], q[3..]);
    assert Like(t[2..], q[2..]);
    assert Like(t[1..], q[1..]);
    assert Like(t, q);
    LikeAnything([]);
    LikeConcat([], "%", t, q);
    LikeConcat(t, "%" + q, [], "%");
    assert [] + t == t && t + [] == t;
    assert !FoldEq(t, q) by {
      assert FoldAscii(t[1]) != FoldAscii(q[1]);
    }
    assert t[0..3] == t;
  }
}
