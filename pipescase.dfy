/** The case-toggling pipe pair: the parent writes a message into one
    pipe, the child reads at most 1023 bytes of it, swaps the case of
    every letter in place, and writes the bytes up to the first NUL into
    the other pipe, from which the parent reads and prints them.  Letters
    are those of the C locale, so only ASCII bytes change. */
module PipesCase {
  import opened Wrappers

  type Byte = b: int | 0 <= b < 256

  /** The child's buffer is 1024 bytes and it reads one less, keeping
      room for the terminator. */
  const BufSize: nat := 1024
  const ReadMax: nat := BufSize - 1

  predicate IsUpper(c: Byte) { 'A' as int <= c <= 'Z' as int }
  predicate IsLower(c: Byte) { 'a' as int <= c <= 'z' as int }
  predicate IsAlpha(c: Byte) { IsUpper(c) || IsLower(c) }

  function ToUpper(c: Byte): Byte { if IsLower(c) then c - 32 else c }
  function ToLower(c: Byte): Byte { if IsUpper(c) then c + 32 else c }

  /** `isalpha(c) ? (islower(c) ? toupper(c) : tolower(c)) : c`. */
  function Toggle(c: Byte): (r: Byte)
    ensures IsLower(c) ==> IsUpper(r) && ToLower(r) == c
    ensures IsUpper(c) ==> IsLower(r) && ToUpper(r) == c
    ensures !IsAlpha(c) ==> r == c
  {
    if IsAlpha(c) then (if IsLower(c) then ToUpper(c) else ToLower(c)) else c
  }

  /** Toggling is its own inverse. */
  lemma ToggleTwice(c: Byte)
    ensures Toggle(Toggle(c)) == c
  {
  }

  /** Every byte toggled. */
  function Swapped(s: seq<Byte>): (r: seq<Byte>)
    ensures |r| == |s| && forall i :: 0 <= i < |s| ==> r[i] == Toggle(s[i])
  {
    seq(|s|, i requires 0 <= i < |s| => Toggle(s[i]))
  }

  /** Toggling twice gives the original bytes back. */
  lemma SwappedTwice(s: seq<Byte>)
    ensures Swapped(Swapped(s)) == s
  {
    forall i | 0 <= i < |s| ensures Swapped(Swapped(s))[i] == s[i] {
      ToggleTwice(s[i]);
    }
  }

  /** `strlen`: the index of the first NUL, or the whole length when there
      is none. */
  function Strlen(s: seq<Byte>): (r: nat)
    ensures r <= |s| && (r < |s| ==> s[r] == 0)
    ensures forall k :: 0 <= k < r ==> s[k] != 0
  {
    if s == [] || s[0] == 0 then 0 else 1 + Strlen(s[1..])
  }

  /** The bytes before the first NUL. */
  function UpToNul(s: seq<Byte>): (r: seq<Byte>)
    ensures 0 !in r && |r| <= |s| && r == s[..|r|]
  {
    s[..Strlen(s)]
  }

  /** A NUL placed after `t` ends the string there or earlier. */
  lemma {:induction false} StrlenStops(t: seq<Byte>, tail: seq<Byte>)
    ensures Strlen(t + [0] + tail) == Strlen(t)
  {
    if t != [] && t[0] != 0 {
      StrlenStops(t[1..], tail);
      assert (t + [0] + tail)[1..] == t[1..] + [0] + tail;
    }
  }

  /** The child's loop over the `n` bytes read, rewriting `buf` in place;
      the terminator at `buf[n]` and everything after it stay. */
  method ToggleBuffer(buf: array<Byte>, n: nat)
    requires n <= buf.Length
    modifies buf
    ensures buf[..n] == Swapped(old(buf[..n]))
    ensures buf[n..] == old(buf[n..])
  {
    for i := 0 to n
      invariant forall k :: 0 <= k < i ==> buf[k] == Toggle(old(buf[k]))
      invariant forall k :: i <= k < buf.Length ==> buf[k] == old(buf[k])
    {
      var c := buf[i];
      if IsAlpha(c) {
        buf[i] := if IsLower(c) then ToUpper(c) else ToLower(c);
      }
    }
  }

  /** How many bytes one `read` of at most `max` bytes takes from a pipe
      holding `pending`. */
  function ReadCount(pending: seq<Byte>, max: nat): (r: nat)
    ensures r <= |pending| && r <= max && (r == |pending| || r == max)
  {
    if |pending| < max then |pending| else max
  }

  /** What the child writes back for the message it reads. */
  function Reply(msg: seq<Byte>): (r: seq<Byte>)
    ensures |r| <= ReadMax && 0 !in r
  {
    var n := ReadCount(msg, ReadMax);
    if n == 0 then [] else UpToNul(Swapped(msg[..n]))
  }

  /** The child: read, terminate, toggle, write `strlen(buf)` bytes. */
  method Child(msg: seq<Byte>) returns (written: seq<Byte>)
    ensures written == Reply(msg)
  {
    var buf := new Byte[BufSize](_ => 0);
    var n := ReadCount(msg, ReadMax);
    written := [];
    if n > 0 {
      forall k | 0 <= k < n {
        buf[k] := msg[k];
      }
      buf[n] := 0;
      ToggleBuffer(buf, n);
      assert buf[n..][0] == 0;
      TerminatedReply(buf[..], msg, n);
      written := buf[..Strlen(buf[..])];
    }
  }

  /** A buffer holding the toggled bytes read and then a NUL yields the
      reply. */
  lemma TerminatedReply(b: seq<Byte>, msg: seq<Byte>, n: nat)
    requires n == ReadCount(msg, ReadMax) && 0 < n < |b|
    requires b[..n] == Swapped(msg[..n]) && b[n] == 0
    ensures b[..Strlen(b)] == Reply(msg)
  {
    var t := b[..n];
    assert Strlen(b) == Strlen(t) by {
      assert b == t + [0] + b[n + 1..];
      StrlenStops(t, b[n + 1..]);
    }
    assert b[..Strlen(b)] == UpToNul(t);
  }

  /** The message bytes for an ASCII text. */
  function Ascii(s: string): (r: seq<Byte>)
    requires forall k :: 0 <= k < |s| ==> s[k] as int < 256
    ensures |r| == |s| && forall k :: 0 <= k < |s| ==> r[k] == s[k] as int
  {
    seq(|s|, k requires 0 <= k < |s| => s[k] as int)
  }

  /** The parent's message: the first argument when there is one, else
      "Hi There\n"; `strlen(msg)` bytes of it are written. */
  function Message(arg: Option<seq<Byte>>): (r: seq<Byte>)
    ensures 0 !in r
  {
    match arg
    case Some(a) => UpToNul(a)
    case None => Ascii("Hi There\n")
  }

  /** What the parent prints: one read of at most 1023 bytes of the
      reply, up to its first NUL. */
  function Output(arg: Option<seq<Byte>>): seq<Byte> {
    Shown(Message(arg))
  }

  /** What the parent prints after sending `msg`. */
  function Shown(msg: seq<Byte>): seq<Byte> {
    var reply := Reply(msg);
    UpToNul(reply[..ReadCount(reply, ReadMax)])
  }

  /** The child's reply is the toggled message, cut at 1023 bytes and at
      the first NUL. */
  lemma ReplySwapped(msg: seq<Byte>)
    ensures Reply(msg) == Swapped(UpToNul(msg[..ReadCount(msg, ReadMax)]))
  {
    var p := msg[..ReadCount(msg, ReadMax)];
    SwappedNul(p);
  }

  /** Toggling keeps NUL bytes and only those, so it commutes with cutting
      at the first NUL. */
  lemma {:induction false} SwappedNul(p: seq<Byte>)
    ensures UpToNul(Swapped(p)) == Swapped(UpToNul(p))
  {
    if p != [] && p[0] != 0 {
      SwappedNul(p[1..]);
      assert Swapped(p)[1..] == Swapped(p[1..]);
      assert UpToNul(p) == [p[0]] + UpToNul(p[1..]);
    }
  }

  /** A message without NUL of at most 1023 bytes comes back with every
      letter's case swapped and nothing else changed, and toggling the
      reply again restores the message. */
  lemma RoundTrip(a: seq<Byte>)
    requires 0 !in a && |a| <= ReadMax
    ensures Output(Some(a)) == Shown(a) == Swapped(a)
    ensures Swapped(Shown(a)) == a
  {
    UpToNulAll(a);
    ReplySwapped(a);
    UpToNulAll(Swapped(a));
    assert a[..|a|] == a;
    SwappedTwice(a);
  }

  lemma UpToNulAll(s: seq<Byte>)
    requires 0 !in s
    ensures UpToNul(s) == s
  {
    assert s[..|s|] == s;
  }

  /** The default message comes back as "hI tHERE\n". */
  lemma DefaultOutput()
    ensures Output(None) == Ascii("hI tHERE\n")
  {
    var m := Ascii("Hi There\n");
    RoundTrip(m);
    DefaultSwapped();
  }

  lemma DefaultSwapped()
    ensures Swapped(Ascii("Hi There\n")) == Ascii("hI tHERE\n")
  {
    var m := Ascii("Hi There\n");
    var t := Ascii("hI tHERE\n");
    assert m == [72, 105, 32, 84, 104, 101, 114, 101, 10];
    assert t == [104, 73, 32, 116, 72, 69, 82, 69, 10];
  }
}
