/**
 * JavaScript strings as the task code sees them: sequences of UTF-16 code units,
 * whose `length` counts code units, and `String.prototype.trim`, which both the
 * schema's `trim` option and the POST handler's blank check use.
 */
module JsText {

  /** One UTF-16 code unit. */
  type CodeUnit = u: int | 0 <= u < 0x1_0000

  /** A JavaScript string value. */
  type JsString = seq<CodeUnit>

  /**
   * The code units `trim` strips: ECMAScript's WhiteSpace (tab, vertical tab,
   * form feed, space, no-break space, the byte order mark and every other
   * space separator) and LineTerminator (line feed, carriage return, line and
   * paragraph separators).
   */
  predicate IsTrimmable(u: CodeUnit) {
    || u == 0x09 || u == 0x0A || u == 0x0B || u == 0x0C || u == 0x0D
    || u == 0x20 || u == 0xA0 || u == 0x1680
    || (0x2000 <= u <= 0x200A)
    || u == 0x2028 || u == 0x2029 || u == 0x202F || u == 0x205F
    || u == 0x3000 || u == 0xFEFF
  }

  /** Every code unit of `s` is one that `trim` strips (true of the empty string). */
  ghost predicate AllTrimmable(s: JsString) {
    forall i :: 0 <= i < |s| ==> IsTrimmable(s[i])
  }

  /** `s` neither starts nor ends with a code unit that `trim` strips. */
  ghost predicate Trimmed(s: JsString) {
    s == [] || (!IsTrimmable(s[0]) && !IsTrimmable(s[|s| - 1]))
  }

  /** `s` without its leading trimmable code units. */
  function TrimStart(s: JsString): (r: JsString)
    ensures |r| <= |s|
    ensures r == [] || !IsTrimmable(r[0])
    decreases |s|
  {
    if s != [] && IsTrimmable(s[0]) then TrimStart(s[1..]) else s
  }

  /** `s` without its trailing trimmable code units. */
  function TrimEnd(s: JsString): (r: JsString)
    ensures |r| <= |s|
    ensures r == [] || !IsTrimmable(r[|r| - 1])
    decreases |s|
  {
    if s != [] && IsTrimmable(s[|s| - 1]) then TrimEnd(s[..|s| - 1]) else s
  }

  /** Joining two strings of trimmable code units gives one. */
  lemma AllTrimmableConcat(a: JsString, b: JsString)
    requires AllTrimmable(a) && AllTrimmable(b)
    ensures AllTrimmable(a + b)
  {
    forall i | 0 <= i < |a + b| ensures IsTrimmable((a + b)[i]) {
      if i < |a| { assert (a + b)[i] == a[i]; } else { assert (a + b)[i] == b[i - |a|]; }
    }
  }

  /** What `TrimStart` drops is a prefix of trimmable code units. */
  lemma {:induction false} TrimStartDrops(s: JsString) returns (p: JsString)
    ensures s == p + TrimStart(s) && AllTrimmable(p)
    decreases |s|
  {
    if s != [] && IsTrimmable(s[0]) {
      var p' := TrimStartDrops(s[1..]);
      p := [s[0]] + p';
      AllTrimmableConcat([s[0]], p');
      calc {
        s;
        [s[0]] + s[1..];
        [s[0]] + (p' + TrimStart(s[1..]));
        p + TrimStart(s);
      }
    } else {
      p := [];
      assert s == [] + s;
    }
  }

  /** What `TrimEnd` drops is a suffix of trimmable code units. */
  lemma {:induction false} TrimEndDrops(s: JsString) returns (q: JsString)
    ensures s == TrimEnd(s) + q && AllTrimmable(q)
    decreases |s|
  {
    if s != [] && IsTrimmable(s[|s| - 1]) {
      var init := s[..|s| - 1];
      var q' := TrimEndDrops(init);
      q := q' + [s[|s| - 1]];
      AllTrimmableConcat(q', [s[|s| - 1]]);
      calc {
        s;
        init + [s[|s| - 1]];
        (TrimEnd(init) + q') + [s[|s| - 1]];
        TrimEnd(s) + q;
      }
    } else {
      q := [];
      assert s == s + [];
    }
  }

  /** `String.prototype.trim`. */
  function Trim(s: JsString): (r: JsString)
    ensures Trimmed(r)
    ensures |r| <= |s|
    ensures r == [] <==> AllTrimmable(s)
  {
    var front := TrimStart(s);
    var r := TrimEnd(front);
    TrimEmptyIffBlank(s);
    assert r != [] ==> r[0] == front[0] by {
      var q := TrimEndDrops(front);
      assert front == r + q;
    }
    r
  }

  /** The two halves of `trim` leave nothing exactly when the input is all trimmable. */
  lemma TrimEmptyIffBlank(s: JsString)
    ensures TrimEnd(TrimStart(s)) == [] <==> AllTrimmable(s)
  {
    var front := TrimStart(s);
    var p := TrimStartDrops(s);
    var q := TrimEndDrops(front);
    if TrimEnd(front) == [] {
      assert front == q;
      AllTrimmableConcat(p, front);
    }
    if front != [] {
      assert s[|p|] == front[0];
    }
  }

  /** Stripping trimmable code units off the front of `p + x` leaves `x` when `x` starts with a kept one. */
  lemma {:induction false} TrimStartOfPadded(p: JsString, x: JsString)
    requires AllTrimmable(p)
    requires x == [] || !IsTrimmable(x[0])
    ensures TrimStart(p + x) == x
    decreases |p|
  {
    if p != [] {
      assert (p + x)[1..] == p[1..] + x;
      TrimStartOfPadded(p[1..], x);
    } else {
      assert p + x == x;
    }
  }

  /** Stripping trimmable code units off the end of `x + q` leaves `x` when `x` ends with a kept one. */
  lemma {:induction false} TrimEndOfPadded(x: JsString, q: JsString)
    requires AllTrimmable(q)
    requires x == [] || !IsTrimmable(x[|x| - 1])
    ensures TrimEnd(x + q) == x
    decreases |q|
  {
    if q != [] {
      var q' := q[..|q| - 1];
      assert (x + q)[..|x + q| - 1] == x + q';
      TrimEndOfPadded(x, q');
    } else {
      assert x + q == x;
    }
  }

  /**
   * `trim` is determined by what it promises: whenever `s` is a trimmed core
   * padded on both sides with trimmable code units, `trim` returns that core.
   */
  lemma {:induction false} TrimOfPadded(p: JsString, m: JsString, q: JsString)
    requires AllTrimmable(p) && AllTrimmable(q) && Trimmed(m)
    ensures Trim(p + m + q) == m
  {
    if m == [] {
      assert p + m + q == (p + q) + [];
      AllTrimmableConcat(p, q);
      TrimStartOfPadded(p + q, []);
    } else {
      assert p + m + q == p + (m + q);
      TrimStartOfPadded(p, m + q);
      TrimEndOfPadded(m, q);
    }
  }

  /** `trim` removes only trimmable code units, from the two ends of its input. */
  lemma TrimSplit(s: JsString) returns (p: JsString, q: JsString)
    ensures s == p + Trim(s) + q
    ensures AllTrimmable(p) && AllTrimmable(q)
  {
    var front := TrimStart(s);
    p := TrimStartDrops(s);
    q := TrimEndDrops(front);
    assert s == p + (Trim(s) + q);
  }

  /** Trimming twice is trimming once. */
  lemma TrimIdempotent(s: JsString)
    ensures Trim(Trim(s)) == Trim(s)
  {
    var m := Trim(s);
    assert [] + m + [] == m;
    TrimOfPadded([], m, []);
  }
}
