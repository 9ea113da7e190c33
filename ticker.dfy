/** A tradable instrument (app/Models/Ticker.php). */
module Tickers {
  import opened Wrappers
  import opened Collections
  import opened Assets

  datatype Ticker = Ticker(id: TickerId, symbol: string, kind: string)

  /** getAvailableTypes: the values the tickers.type column admits. */
  function AvailableTypes(): (r: seq<string>)
    ensures |r| == 4
  {
    ["crypto", "currency", "commodity", "stock"]
  }

  /** The type_name attribute. */
  function TypeName(kind: string): string
  {
    match kind
    case "crypto" => "Cryptocurrency"
    case "currency" => "Currency"
    case "commodity" => "Commodity"
    case "stock" => "Stock"
    case _ => "Unknown"
  }

  /** type_name knows exactly the available types. */
  lemma TypeNameKnownIffAvailable(kind: string)
    ensures TypeName(kind) != "Unknown" <==> kind in AvailableTypes()
  {
  }

  /** isType. */
  predicate IsType(t: Ticker, kind: string)
  {
    t.kind == kind
  }

  /** The crypto, currency, commodity and stock scopes, one per type. */
  function WhereType(ts: seq<Ticker>, kind: string): (r: seq<Ticker>)
    ensures forall x :: x in r <==> x in ts && IsType(x, kind)
  {
    Filter(ts, t => IsType(t, kind))
  }

  /** The letter case the usual collations ignore: ASCII lower case folds to upper case. */
  function Fold(c: char): char
  {
    if 'a' <= c <= 'z' then (c as int - 32) as char else c
  }

  /** The two characters LIKE treats as wildcards. */
  predicate Wildcard(c: char)
  {
    c == '%' || c == '_'
  }

  /**
   * `s LIKE p` with no escape character: `%` matches any run of characters,
   * `_` matches any one character, and every other character matches itself up
   * to ASCII case.
   */
  predicate Like(s: string, p: string)
    decreases |s| + |p|
  {
    if p == [] then s == []
    else if p[0] == '%' then Like(s, p[1..]) || (s != [] && Like(s[1..], p))
    else s != [] && (p[0] == '_' || Fold(s[0]) == Fold(p[0])) && Like(s[1..], p[1..])
  }

  /** Two strings equal up to ASCII case. */
  predicate FoldEq(s: string, t: string)
  {
    |s| == |t| && forall i :: 0 <= i < |s| ==> Fold(s[i]) == Fold(t[i])
  }

  /** `sub` occurs in `s` at position i, up to ASCII case. */
  predicate FoldedAt(s: string, sub: string, i: int)
  {
    0 <= i <= |s| - |sub| && FoldEq(s[i..i + |sub|], sub)
  }

  /** `sub` occurs in `s`, up to ASCII case. */
  predicate ContainsFolded(s: string, sub: string)
  {
    exists i :: 0 <= i <= |s| - |sub| && FoldedAt(s, sub, i)
  }

  /** The search scope: where('symbol', 'LIKE', "%term%"), the term spliced in unescaped. */
  function Search(ts: seq<Ticker>, term: string): (r: seq<Ticker>)
    ensures forall x :: x in r <==> x in ts && Like(x.symbol, "%" + term + "%")
  {
    Filter(ts, (t: Ticker) => Like(t.symbol, "%" + term + "%"))
  }

  /** `%` matches every string. */
  lemma {:induction false} LikeAnything(s: string)
    ensures Like(s, "%")
  {
    if s != [] {
      LikeAnything(s[1..]);
    }
  }

  /** A pattern without wildcards matches exactly the strings equal to it up to case. */
  lemma {:induction false} LikeLiteral(s: string, p: string)
    requires forall i :: 0 <= i < |p| ==> !Wildcard(p[i])
    ensures Like(s, p) <==> FoldEq(s, p)
  {
    if p != [] && s != [] {
      LikeLiteral(s[1..], p[1..]);
      if FoldEq(s, p) {
        assert FoldEq(s[1..], p[1..]) by {
          forall i | 0 <= i < |s| - 1 ensures Fold(s[1..][i]) == Fold(p[1..][i]) {
            assert s[1..][i] == s[i + 1] && p[1..][i] == p[i + 1];
          }
        }
      }
      if Like(s, p) {
        forall i | 0 <= i < |s| ensures Fold(s[i]) == Fold(p[i]) {
          if i > 0 {
            assert s[1..][i - 1] == s[i] && p[1..][i - 1] == p[i];
          }
        }
      }
    }
  }

  /** A leading `%` lets the rest of the pattern match any suffix. */
  lemma {:induction false} LikeLeadingPercent(s: string, q: string)
    ensures Like(s, "%" + q) <==> exists i :: 0 <= i <= |s| && Like(s[i..], q)
  {
    var p := "%" + q;
    assert p[1..] == q;
    assert s[0..] == s;
    if s != [] {
      LikeLeadingPercent(s[1..], q);
      forall i | 0 <= i <= |s| - 1 ensures s[1..][i..] == s[i + 1..] {
      }
      if exists i :: 0 <= i <= |s| && Like(s[i..], q) {
        var i :| 0 <= i <= |s| && Like(s[i..], q);
        if i > 0 {
          assert Like(s[1..][i - 1..], q);
        }
      }
    }
  }

  /** A wildcard-free term followed by `%` matches exactly the strings that start with the term. */
  lemma {:induction false} LikePrefix(s: string, t: string)
    requires forall i :: 0 <= i < |t| ==> !Wildcard(t[i])
    ensures Like(s, t + "%") <==> |t| <= |s| && FoldEq(s[..|t|], t)
  {
    var p := t + "%";
    if t == [] {
      assert p == "%";
      LikeAnything(s);
    } else if s != [] {
      assert p[1..] == t[1..] + "%";
      LikePrefix(s[1..], t[1..]);
      if |t| <= |s| {
        var a, b := s[..|t|], s[1..][..|t| - 1];
        forall i | 0 <= i < |t| - 1 ensures b[i] == a[i + 1] {
        }
        if FoldEq(a, t) {
          forall i | 0 <= i < |t| - 1 ensures Fold(b[i]) == Fold(t[1..][i]) {
            assert t[1..][i] == t[i + 1];
          }
        }
        if FoldEq(b, t[1..]) && Fold(s[0]) == Fold(t[0]) {
          forall i | 0 <= i < |t| ensures Fold(a[i]) == Fold(t[i]) {
            if i > 0 {
              assert t[1..][i - 1] == t[i];
            }
          }
        }
      }
    }
  }

  /**
   * For a term without wildcards, the search pattern matches exactly the
   * symbols that contain the term, up to case.
   */
  lemma LikeContains(s: string, t: string)
    requires forall i :: 0 <= i < |t| ==> !Wildcard(t[i])
    ensures Like(s, "%" + t + "%") <==> ContainsFolded(s, t)
  {
    assert "%" + t + "%" == "%" + (t + "%");
    LikeLeadingPercent(s, t + "%");
    if Like(s, "%" + t + "%") {
      var i :| 0 <= i <= |s| && Like(s[i..], t + "%");
      LikePrefix(s[i..], t);
      assert s[i..][..|t|] == s[i..i + |t|];
      assert FoldedAt(s, t, i);
    }
    if ContainsFolded(s, t) {
      var i :| 0 <= i <= |s| - |t| && FoldedAt(s, t, i);
      assert FoldEq(s[i..i + |t|], t);
      LikePrefix(s[i..], t);
      assert s[i..][..|t|] == s[i..i + |t|];
      assert Like(s[i..], t + "%");
    }
  }

  /** A search for a term without wildcards keeps exactly the tickers whose symbol contains it, ignoring case. */
  lemma SearchLiteralTerm(ts: seq<Ticker>, term: string)
    requires forall i :: 0 <= i < |term| ==> !Wildcard(term[i])
    ensures forall x :: x in Search(ts, term) <==> x in ts && ContainsFolded(x.symbol, term)
  {
    forall x | x in ts ensures Like(x.symbol, "%" + term + "%") <==> ContainsFolded(x.symbol, term) {
      LikeContains(x.symbol, term);
    }
  }

  /** An empty search term matches every ticker. */
  lemma SearchEmptyTermKeepsAll(ts: seq<Ticker>)
    ensures Search(ts, "") == ts
  {
    forall i | 0 <= i < |ts| ensures Like(ts[i].symbol, "%" + "" + "%") {
      LikeAnything(ts[i].symbol);
      assert ("%" + "" + "%")[1..] == "%";
    }
    FilterAll(ts, (t: Ticker) => Like(t.symbol, "%" + "" + "%"));
  }

  /** The term "%" is a wildcard too: it matches every ticker. */
  lemma SearchPercentKeepsAll(ts: seq<Ticker>)
    ensures Search(ts, "%") == ts
  {
    forall i | 0 <= i < |ts| ensures Like(ts[i].symbol, "%" + "%" + "%") {
      LikeAnything(ts[i].symbol);
      assert ("%" + "%" + "%")[1..][1..] == "%";
      assert Like(ts[i].symbol, ("%" + "%" + "%")[1..]);
    }
    FilterAll(ts, (t: Ticker) => Like(t.symbol, "%" + "%" + "%"));
  }

  /** Search ignores ASCII case and reads `_` as any one character. */
  lemma SearchExamples()
    ensures Like("BTC", "%" + "btc" + "%")
    ensures Like("BTC", "%" + "B_C" + "%")
    ensures !Like("BTC", "%" + "ETH" + "%")
  {
    LikeContains("BTC", "btc");
    assert FoldedAt("BTC", "btc", 0);
    assert Like("", "") && Like("", "%") && Like("C", "C%") && Like("TC", "_C%") && Like("BTC", "B_C%");
    assert ("%" + "B_C" + "%")[1..] == "B_C%";
    LikeContains("BTC", "ETH");
    assert !FoldedAt("BTC", "ETH", 0);
  }

  /** where('symbol', …)->first(): the first ticker whose symbol equals the given one, character for character. */
  function FindBySymbol(ts: seq<Ticker>, symbol: string): (r: Option<Ticker>)
    ensures r.Some? ==> r.value in ts && r.value.symbol == symbol
    ensures r.None? ==> forall i :: 0 <= i < |ts| ==> ts[i].symbol != symbol
  {
    var i := FindFirst(ts, (t: Ticker) => t.symbol == symbol);
    if i.None? then None else Some(ts[i.value])
  }

  /** Any string matches itself as a pattern, followed by whatever the rest of the pattern matches. */
  lemma {:induction false} LikeSelf(s: string, u: string, q: string)
    requires Like(u, q)
    ensures Like(s + u, s + q)
  {
    if s == [] {
      assert s + u == u && s + q == q;
    } else {
      LikeSelf(s[1..], u, q);
      assert (s + u)[1..] == s[1..] + u && (s + q)[1..] == s[1..] + q;
      if s[0] == '%' {
        assert Like((s + u)[1..], s + q);
      }
    }
  }

  /** Searching for a symbol finds the ticker that carries it, even when the symbol holds a wildcard. */
  lemma SearchFindsSymbol(ts: seq<Ticker>, symbol: string)
    requires FindBySymbol(ts, symbol).Some?
    ensures FindBySymbol(ts, symbol).value in Search(ts, symbol)
  {
    var t := FindBySymbol(ts, symbol).value;
    LikeAnything([]);
    LikeSelf(symbol, [], "%");
    assert symbol + [] == symbol;
    var p := "%" + symbol + "%";
    assert p[1..] == symbol + "%";
  }

  /** total_holdings: the sum of amount over the ticker's asset rows. */
  function TotalHoldings(rows: seq<Asset>): int
  {
    if rows == [] then 0 else rows[0].amount + TotalHoldings(rows[1..])
  }

  /** total_locked_amount: the sum of locked_amount over the ticker's asset rows. */
  function TotalLocked(rows: seq<Asset>): int
  {
    if rows == [] then 0 else rows[0].locked + TotalLocked(rows[1..])
  }

  /** Over consistent holdings, nothing more is locked than is held, and nothing is negative. */
  lemma {:induction false} LockedAtMostHoldings(rows: seq<Asset>)
    requires forall i :: 0 <= i < |rows| ==> rows[i].Consistent()
    ensures 0 <= TotalLocked(rows) <= TotalHoldings(rows)
  {
    if rows != [] {
      LockedAtMostHoldings(rows[1..]);
    }
  }
}
