/** SQLite's LIKE operator as search_notes uses it: no ESCAPE clause, so `%`
    matches any run of characters and `_` any single character, and letters
    compare without regard to case for ASCII only. */
module SqlLike {

  /** ASCII case folding: only 'A'..'Z' are folded. */
  function Fold(c: char): (f: char)
    ensures 'a' <= f <= 'z' <==> ('a' <= c <= 'z' || 'A' <= c <= 'Z')
  {
    if 'A' <= c <= 'Z' then (c as int + 32) as char else c
  }

  /** `s LIKE p`. */
  predicate Like(p: string, s: string)
    decreases |p| + |s|
  {
    if p == [] then s == []
    else if p[0] == '%' then Like(p[1..], s) || (s != [] && Like(p, s[1..]))
    else s != [] && (p[0] == '_' || Fold(p[0]) == Fold(s[0])) && Like(p[1..], s[1..])
  }

  /** A keyword in which LIKE sees no wildcard. */
  predicate WildcardFree(k: string)
  {
    forall i :: 0 <= i < |k| ==> k[i] != '%' && k[i] != '_'
  }

  /** `s` starts with `k`, letters compared with ASCII case folded. */
  predicate FoldedPrefix(k: string, s: string)
  {
    |k| <= |s| && forall i :: 0 <= i < |k| ==> Fold(k[i]) == Fold(s[i])
  }

  /** `s` contains `k` somewhere, letters compared with ASCII case folded. */
  predicate ContainsFolded(s: string, k: string)
  {
    exists i :: 0 <= i <= |s| && FoldedPrefix(k, s[i..])
  }

  /** The pattern `%` matches every text. */
  lemma {:induction false} PercentMatchesAll(s: string)
    ensures Like("%", s)
    decreases |s|
  {
    if s != [] {
      PercentMatchesAll(s[1..]);
    }
  }

  /** A wildcard-free `k` followed by `%` matches exactly the texts that start with `k`. */
  lemma {:induction false} TrailingPercent(k: string, s: string)
    requires WildcardFree(k)
    ensures Like(k + "%", s) <==> FoldedPrefix(k, s)
    decreases |k|
  {
    if k == [] {
      assert k + "%" == "%";
      PercentMatchesAll(s);
    } else {
      var p := k + "%";
      assert p[0] == k[0] && p[1..] == k[1..] + "%";
      assert WildcardFree(k[1..]) by {
        forall i | 0 <= i < |k[1..]| ensures k[1..][i] != '%' && k[1..][i] != '_' {
          assert k[1..][i] == k[i + 1];
        }
      }
      if s != [] {
        TrailingPercent(k[1..], s[1..]);
        if FoldedPrefix(k, s) {
          assert FoldedPrefix(k[1..], s[1..]) by {
            forall i | 0 <= i < |k[1..]| ensures Fold(k[1..][i]) == Fold(s[1..][i]) {
              assert k[1..][i] == k[i + 1] && s[1..][i] == s[i + 1];
            }
          }
        }
        if Like(p, s) {
          assert FoldedPrefix(k, s) by {
            forall i | 0 <= i < |k| ensures Fold(k[i]) == Fold(s[i]) {
              if i > 0 {
                assert k[1..][i - 1] == k[i] && s[1..][i - 1] == s[i];
              }
            }
          }
        }
      }
    }
  }

  /** A leading `%` lets the rest of the pattern match any suffix. */
  lemma {:induction false} LeadingPercent(q: string, s: string)
    ensures Like("%" + q, s) <==> exists i :: 0 <= i <= |s| && Like(q, s[i..])
    decreases |s|
  {
    var p := "%" + q;
    assert p[0] == '%' && p[1..] == q;
    assert s[0..] == s;
    if s != [] {
      LeadingPercent(q, s[1..]);
      if exists i :: 0 <= i <= |s| && Like(q, s[i..]) {
        var i :| 0 <= i <= |s| && Like(q, s[i..]);
        if i > 0 {
          assert s[1..][i - 1..] == s[i..];
        }
      }
      if Like(p, s[1..]) {
        var i :| 0 <= i <= |s[1..]| && Like(q, s[1..][i..]);
        assert s[1..][i..] == s[i + 1..];
      }
    }
  }

  /** What search_notes' pattern `%keyword%` selects: for a keyword without
      wildcards, exactly the texts that contain it, ignoring ASCII case. */
  lemma KeywordMatch(k: string, s: string)
    requires WildcardFree(k)
    ensures Like("%" + k + "%", s) <==> ContainsFolded(s, k)
  {
    assert "%" + k + "%" == "%" + (k + "%");
    LeadingPercent(k + "%", s);
    forall i | 0 <= i <= |s|
      ensures Like(k + "%", s[i..]) <==> FoldedPrefix(k, s[i..])
    {
      TrailingPercent(k, s[i..]);
    }
  }

  /** Wildcards in the keyword are not escaped: searching for "%" matches every text. */
  lemma {:induction false} PercentKeywordMatchesAll(s: string)
    ensures Like("%" + "%" + "%", s)
  {
    assert "%" + "%" + "%" == "%%%";
    assert "%%%"[1..] == "%%" && "%%"[1..] == "%";
    PercentMatchesAll(s);
  }
}
