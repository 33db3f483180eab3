/** The list-cell splitter of the seating program: a missing cell is the
    empty list; otherwise the text is split on the first of ";", newline
    and "," that occurs in it, every piece is stripped of white space and
    blank pieces are dropped.  Splitting and stripping follow Python's
    `str.split(sep)` and `str.strip()`. */
module Cells {
  import opened Wrappers

  /** The characters Python's `str.strip()` removes. */
  predicate IsSpace(c: char) {
    var n := c as int;
    || 0x09 <= n <= 0x0d || 0x1c <= n <= 0x20 || n == 0x85 || n == 0xa0 || n == 0x1680
    || 0x2000 <= n <= 0x200a || n == 0x2028 || n == 0x2029 || n == 0x202f || n == 0x205f || n == 0x3000
  }

  function StripLeft(s: string): (r: string)
    ensures |r| <= |s| && r == s[|s| - |r|..]
    ensures r == [] || !IsSpace(r[0])
    ensures forall i :: 0 <= i < |s| - |r| ==> IsSpace(s[i])
  {
    if s != [] && IsSpace(s[0]) then
      var r := StripLeft(s[1..]);
      assert s[1..][|s| - 1 - |r|..] == s[|s| - |r|..];
      r
    else s
  }

  function StripRight(s: string): (r: string)
    ensures |r| <= |s| && r == s[..|r|]
    ensures r == [] || !IsSpace(r[|r| - 1])
    ensures forall i :: |r| <= i < |s| ==> IsSpace(s[i])
  {
    if s != [] && IsSpace(s[|s| - 1]) then
      var r := StripRight(s[..|s| - 1]);
      assert s[..|s| - 1][..|r|] == s[..|r|];
      r
    else s
  }

  /** `str.strip()`: `s` without its leading and trailing white space. */
  function Strip(s: string): (r: string)
    ensures |r| <= |s| && forall c :: c in r ==> c in s
    ensures Trimmed(r)
  {
    StripRight(StripLeft(s))
  }

  /** Neither end is white space. */
  predicate Trimmed(t: string) {
    t == [] || (!IsSpace(t[0]) && !IsSpace(t[|t| - 1]))
  }

  /** The stripped text is the slice between the leading and the trailing
      white space of `s`. */
  lemma StripSlice(s: string)
    ensures exists i, j :: 0 <= i <= j <= |s| && Strip(s) == s[i..j]
                           && (forall k :: 0 <= k < i ==> IsSpace(s[k]))
                           && (forall k :: j <= k < |s| ==> IsSpace(s[k]))
  {
    var l := StripLeft(s);
    var r := StripRight(l);
    var i := |s| - |l|;
    assert r == s[i..i + |r|];
    forall k | i + |r| <= k < |s| ensures IsSpace(s[k]) {
      assert s[k] == l[k - i];
    }
  }

  /** A trimmed text is its own stripped form, so stripping twice strips
      nothing more. */
  lemma StripFixed(t: string)
    requires Trimmed(t)
    ensures Strip(t) == t
  {
    if t != [] {
      assert StripLeft(t) == t;
      assert StripRight(t) == t;
    }
  }

  lemma StripTwice(s: string)
    ensures Strip(Strip(s)) == Strip(s)
  {
    StripFixed(Strip(s));
  }

  /** `s.split(c)`: the pieces between the occurrences of `c`; there is
      always one more piece than there are occurrences. */
  function Split(s: string, c: char): (r: seq<string>)
    ensures |r| >= 1
    ensures forall k :: 0 <= k < |r| ==> c !in r[k]
  {
    if s == [] then [[]]
    else
      var rest := Split(s[1..], c);
      if s[0] == c then [[]] + rest
      else
        assert c !in [s[0]] + rest[0];
        [[s[0]] + rest[0]] + rest[1..]
  }

  /** `c.join(ps)`. */
  function Join(ps: seq<string>, c: char): string
    requires |ps| >= 1
  {
    if |ps| == 1 then ps[0] else ps[0] + [c] + Join(ps[1..], c)
  }

  /** Joining the pieces with the separator gives back the text. */
  lemma {:induction false} SplitJoin(s: string, c: char)
    ensures Join(Split(s, c), c) == s
  {
    if s != [] {
      var rest := Split(s[1..], c);
      SplitJoin(s[1..], c);
      if s[0] == c {
        assert Split(s, c)[1..] == rest;
      } else {
        var r := Split(s, c);
        if |rest| == 1 {
          assert r == [[s[0]] + rest[0]];
        } else {
          assert r[1..] == rest[1..];
          assert Join(rest, c) == rest[0] + [c] + Join(rest[1..], c);
        }
      }
    }
  }

  /** A text without the separator is a single piece. */
  lemma {:induction false} SplitNone(s: string, c: char)
    requires c !in s
    ensures Split(s, c) == [s]
  {
    if s != [] {
      SplitNone(s[1..], c);
      assert [s[0]] + s[1..] == s;
    }
  }

  /** Appending a separator and a piece without it adds that piece. */
  lemma {:induction false} SplitSnoc(a: string, c: char, w: string)
    requires c !in w
    ensures Split(a + [c] + w, c) == Split(a, c) + [w]
  {
    if a == [] {
      SplitNone(w, c);
      assert a + [c] + w == [c] + w && ([c] + w)[1..] == w;
    } else {
      SplitSnoc(a[1..], c, w);
      assert (a + [c] + w)[0] == a[0] && (a + [c] + w)[1..] == a[1..] + [c] + w;
    }
  }

  /** The stripped pieces that are not blank, in order. */
  function Clean(ps: seq<string>): (r: seq<string>)
    ensures forall k :: 0 <= k < |r| ==> r[k] != [] && Trimmed(r[k])
    ensures forall k, c :: 0 <= k < |r| && c in r[k] ==> exists i :: 0 <= i < |ps| && c in ps[i]
  {
    if ps == [] then []
    else
      var rest := Clean(ps[..|ps| - 1]);
      var t := Strip(ps[|ps| - 1]);
      if t == [] then rest else rest + [t]
  }

  /** normalize_list_cell and norm_list; `None` is a missing cell. */
  function NormList(cell: Option<string>): seq<string> {
    if cell == None then []
    else
      var s := cell.value;
      if ';' in s then Clean(Split(s, ';'))
      else if '\n' in s then Clean(Split(s, '\n'))
      else if ',' in s then Clean(Split(s, ','))
      else if Strip(s) != [] then [Strip(s)] else []
  }

  /** Every item is non-blank and stripped, and a missing cell gives no
      items. */
  lemma NormListItems(cell: Option<string>)
    ensures cell == None ==> NormList(cell) == []
    ensures forall k :: 0 <= k < |NormList(cell)| ==>
      NormList(cell)[k] != [] && Strip(NormList(cell)[k]) == NormList(cell)[k]
  {
    var r := NormList(cell);
    forall k | 0 <= k < |r| ensures Strip(r[k]) == r[k] {
      StripFixed(r[k]);
    }
  }

  /** No item holds the separator that was split on, and a text with no
      separator gives at most its own stripped self, which is what
      splitting it would give. */
  lemma NormListSeparators(s: string)
    ensures ';' in s ==> forall k :: 0 <= k < |NormList(Some(s))| ==> ';' !in NormList(Some(s))[k]
    ensures ';' !in s && '\n' in s ==>
      forall k :: 0 <= k < |NormList(Some(s))| ==> '\n' !in NormList(Some(s))[k]
    ensures ';' !in s && '\n' !in s && ',' in s ==>
      forall k :: 0 <= k < |NormList(Some(s))| ==> ',' !in NormList(Some(s))[k]
    ensures ';' !in s && '\n' !in s && ',' !in s ==>
      NormList(Some(s)) == Clean(Split(s, ';')) && |NormList(Some(s))| <= 1
  {
    if ';' in s {
      PiecesFree(s, ';');
    } else if '\n' in s {
      PiecesFree(s, '\n');
    } else if ',' in s {
      PiecesFree(s, ',');
    } else {
      SplitNone(s, ';');
      assert [s][..0] == [];
    }
  }

  /** No cleaned piece holds the separator. */
  lemma PiecesFree(s: string, c: char)
    ensures forall k :: 0 <= k < |Clean(Split(s, c))| ==> c !in Clean(Split(s, c))[k]
  {
  }
}
