/**
 * src/core/system.cpp: the text of a status code (mErrorStr) and the quoting of a multi-line
 * error text that Exception::formatMessage applies before an exception is thrown.
 */
module System {
  import opened Text


  // ---------------------------------------------------------------- mErrorStr

  /** Error::Code values that have a fixed text (StsBadFunc, -6, has none). */
  predicate IsNamedStatus(status: int)
  {
    status in {0, -1, -2, -3, -4, -5, -7, -8, -9, -10}
  }

  /**
   * mErrorStr: the fixed text of a named code; any other code is printed as
   * "Unknown status code N" when N >= 0 and "Unknown error code N" when N < 0.
   */
  function ErrorStr(status: int): (r: string)
    ensures !IsNamedStatus(status) ==>
              r == "Unknown " + (if status >= 0 then "status" else "error") + " code " + IntText(status)
  {
    match status
    case 0 => "No Error"
    case -1 => "Backtrace"
    case -2 => "Unspecified error"
    case -3 => "Internal error"
    case -4 => "Insufficient memory"
    case -5 => "Bad argument"
    case -7 => "Null pointer"
    case -8 => "Incorrect size of input array"
    case -9 => "The function/feature is not implemented"
    case -10 => "Assertion failed"
    case _ => "Unknown " + (if status >= 0 then "status" else "error") + " code " + IntText(status)
  }

  /** The fixed texts differ from "Unknown ..." at their third character. */
  lemma NamedTextIsKnown(status: int)
    requires IsNamedStatus(status)
    ensures |ErrorStr(status)| > 2 && ErrorStr(status)[2] != 'k'
  {
  }

  /** Reads a fixed text back to its code, by its length and, for the two of length 12, its first letter. */
  function NamedCode(t: string): int
  {
    match |t|
    case 8 => 0
    case 9 => -1
    case 17 => -2
    case 14 => -3
    case 19 => -4
    case 12 => if |t| > 0 && t[0] == 'B' then -5 else -7
    case 29 => -8
    case 39 => -9
    case 16 => -10
    case _ => 1
  }

  /** NamedCode inverts ErrorStr on the named codes. */
  lemma NamedCodeInverse(status: int)
    requires IsNamedStatus(status)
    ensures NamedCode(ErrorStr(status)) == status
  {
  }

  /** Two "Unknown ..." texts are equal only for equal codes. */
  lemma UnknownTextInjective(a: int, b: int)
    requires !IsNamedStatus(a) && !IsNamedStatus(b) && ErrorStr(a) == ErrorStr(b)
    ensures a == b
  {
    var ka := if a >= 0 then "status" else "error";
    var kb := if b >= 0 then "status" else "error";
    assert ErrorStr(a)[8] == ka[0] && ErrorStr(b)[8] == kb[0];
    assert ka == kb;
    var p := "Unknown " + ka + " code ";
    assert ErrorStr(a) == p + IntText(a) && ErrorStr(b) == p + IntText(b);
    assert IntText(a) == ErrorStr(a)[|p|..] == ErrorStr(b)[|p|..] == IntText(b);
    IntTextInjective(a, b);
  }

  /** The text tells the code: distinct codes have distinct texts. */
  lemma ErrorStrInjective(a: int, b: int)
    requires ErrorStr(a) == ErrorStr(b)
    ensures a == b
  {
    if !IsNamedStatus(a) && !IsNamedStatus(b) {
      UnknownTextInjective(a, b);
    } else if IsNamedStatus(a) && !IsNamedStatus(b) {
      NamedTextIsKnown(a);
    } else if !IsNamedStatus(a) && IsNamedStatus(b) {
      NamedTextIsKnown(b);
    } else {
      NamedCodeInverse(a);
      NamedCodeInverse(b);
    }
  }

  // ---------------------------------------------------------------- formatMessage

  /**
   * The lines of s from `prev` on, each led by "> ": every newline-terminated segment becomes
   * "> " + segment + "\n", and the remainder after the last newline becomes "> " + remainder.
   */
  function Quote(s: string, prev: nat): string
    requires prev <= |s|
    decreases |s| - prev
  {
    var pos := FindFrom(s, '\n', prev);
    if pos == -1 then "> " + s[prev..] else "> " + s[prev..pos] + "\n" + Quote(s, pos + 1)
  }

  /**
   * The err text after formatMessage: unchanged without a newline; otherwise quoted line by
   * line, with a final newline added unless err already ended in one.
   */
  function Prefixed(err: string): string
  {
    if '\n' !in err then err
    else Quote(err, 0) + (if err[|err| - 1] != '\n' then "\n" else "")
  }

  /** Strips the "> " at the head of every line: the inverse of Quote. */
  function Unquote(t: string): string
    decreases |t|
  {
    if |t| < 2 || t[0] != '>' || t[1] != ' ' then t
    else
      var rest := t[2..];
      var p := FindFrom(rest, '\n', 0);
      if p == -1 then rest else rest[..p + 1] + Unquote(rest[p + 1..])
  }

  /** Unquote of one "> "-led text. */
  lemma UnquoteStep(body: string)
    ensures Unquote("> " + body) ==
            var p := FindFrom(body, '\n', 0);
            if p == -1 then body else body[..p + 1] + Unquote(body[p + 1..])
  {
    var t := "> " + body;
    assert t[0] == '>' && t[1] == ' ' && t[2..] == body;
  }

  /** The first line of `line + "\n" + q`, when `line` is the text between prev and the first newline at pos. */
  lemma FirstLine(s: string, prev: nat, q: string)
    requires prev <= |s| && FindFrom(s, '\n', prev) != -1
    ensures var pos := FindFrom(s, '\n', prev);
            var body := s[prev..pos] + "\n" + q;
            && FindFrom(body, '\n', 0) == pos - prev
            && body[..pos - prev + 1] == s[prev..pos + 1]
            && body[pos - prev + 1..] == q
  {
    var pos := FindFrom(s, '\n', prev);
    FindFromSpec(s, '\n', prev);
    var line := s[prev..pos];
    var body := line + "\n" + q;
    forall i | 0 <= i < |line| ensures body[i] != '\n' {
      assert body[i] == s[prev + i];
    }
    FindFromAt(body, '\n', 0, |line|);
    assert body[..|line| + 1] == s[prev..pos + 1];
  }

  /** The text after prev, when it holds no newline. */
  lemma LastLine(s: string, prev: nat)
    requires prev <= |s| && FindFrom(s, '\n', prev) == -1
    ensures FindFrom(s[prev..], '\n', 0) == -1
  {
    FindFromSpec(s, '\n', prev);
    var r := s[prev..];
    forall i | 0 <= i < |r| ensures r[i] != '\n' {
      assert r[i] == s[prev + i];
    }
    FindFromNone(r, '\n', 0);
  }

  /** Quote(s, prev) is "> " followed by the first line, its newline, and the quoted rest. */
  lemma QuoteHead(s: string, prev: nat)
    requires prev <= |s| && FindFrom(s, '\n', prev) != -1
    ensures Quote(s, prev) == "> " + (s[prev..FindFrom(s, '\n', prev)] + "\n" + Quote(s, FindFrom(s, '\n', prev) + 1))
  {
  }

  lemma SplitAt<T>(s: seq<T>, i: nat, j: nat)
    requires i <= j <= |s|
    ensures s[i..] == s[i..j] + s[j..]
  {
  }

  /** Unquoting one quoted line followed by a quoted rest q gives the line back, then q unquoted. */
  lemma UnquoteFirstLine(s: string, prev: nat, q: string)
    requires prev <= |s| && FindFrom(s, '\n', prev) != -1
    requires Unquote(q) == s[FindFrom(s, '\n', prev) + 1..]
    ensures Unquote("> " + (s[prev..FindFrom(s, '\n', prev)] + "\n" + q)) == s[prev..]
  {
    var pos := FindFrom(s, '\n', prev);
    var body := s[prev..pos] + "\n" + q;
    FirstLine(s, prev, q);
    UnquoteStep(body);
    SplitAt(s, prev, pos + 1);
  }

  /** Unquoting the quoted lines gives the text back. */
  lemma {:induction false} QuoteRoundTrip(s: string, prev: nat)
    requires prev <= |s|
    ensures Unquote(Quote(s, prev)) == s[prev..]
    decreases |s| - prev
  {
    var pos := FindFrom(s, '\n', prev);
    if pos == -1 {
      RoundTripLast(s, prev);
    } else {
      QuoteRoundTrip(s, pos + 1);
      RoundTripFirst(s, prev);
    }
  }

  /** The last line round-trips. */
  lemma RoundTripLast(s: string, prev: nat)
    requires prev <= |s| && FindFrom(s, '\n', prev) == -1
    ensures Unquote(Quote(s, prev)) == s[prev..]
  {
    LastLine(s, prev);
    UnquoteStep(s[prev..]);
    assert Quote(s, prev) == "> " + s[prev..];
  }

  /** A first line round-trips when the quoted rest does. */
  lemma RoundTripFirst(s: string, prev: nat)
    requires prev <= |s| && FindFrom(s, '\n', prev) != -1
    requires Unquote(Quote(s, FindFrom(s, '\n', prev) + 1)) == s[FindFrom(s, '\n', prev) + 1..]
    ensures Unquote(Quote(s, prev)) == s[prev..]
  {
    QuoteHead(s, prev);
    UnquoteFirstLine(s, prev, Quote(s, FindFrom(s, '\n', prev) + 1));
  }

  /** The quoted text starts every line with "> ": a text without newlines is left as it is. */
  lemma PrefixedSingleLine(err: string)
    requires '\n' !in err
    ensures Prefixed(err) == err
  {
  }

  /** One line of Quote, as the loop appends it. */
  lemma QuoteUnfold(s: string, prev: nat)
    requires prev <= |s|
    ensures var pos := FindFrom(s, '\n', prev);
            && (pos == -1 ==> Quote(s, prev) == "> " + s[prev..])
            && (pos != -1 ==> Quote(s, prev) == ("> " + s[prev..pos] + "\n") + Quote(s, pos + 1))
  {
  }

  lemma AppendAssoc<T>(a: seq<T>, b: seq<T>, c: seq<T>)
    ensures a + (b + c) == (a + b) + c
  {
  }

  /** Appending one quoted line to the text so far leaves the quote of the rest still to come. */
  lemma QuoteAppend(s: string, prev: nat, out: string)
    requires prev <= |s| && FindFrom(s, '\n', prev) != -1
    ensures var pos := FindFrom(s, '\n', prev);
            (out + ("> " + s[prev..pos] + "\n")) + Quote(s, pos + 1) == out + Quote(s, prev)
  {
    var pos := FindFrom(s, '\n', prev);
    QuoteUnfold(s, prev);
    AppendAssoc(out, "> " + s[prev..pos] + "\n", Quote(s, pos + 1));
  }

  /** formatMessage's loop: `ss << "> " << err.substr(prev_pos, pos - prev_pos) << endl` per newline. */
  method QuoteLines(err: string) returns (out: string)
    ensures out == Prefixed(err)
  {
    var pos := FindFrom(err, '\n', 0);
    FindFromSpec(err, '\n', 0);
    if pos == -1 {
      return err;
    }
    out := "";
    var prev: nat := 0;
    while pos != -1
      invariant prev <= |err|
      invariant pos == FindFrom(err, '\n', prev)
      invariant out + Quote(err, prev) == Quote(err, 0)
      decreases |err| - prev
    {
      var seg := "> " + err[prev..pos] + "\n";
      QuoteAppend(err, prev, out);
      out := out + seg;
      prev := pos + 1;
      pos := FindFrom(err, '\n', prev);
    }
    out := out + ("> " + err[prev..]);
    if err[|err| - 1] != '\n' {
      out := out + "\n";
    }
  }

  // ---------------------------------------------------------------- Exception and error

  /**
   * minfer::Exception: the code, the (possibly quoted) error text, the function, file and line.
   * The formatted `msg` is printf output and is not part of this model.
   */
  class Exception {
    var code: int
    var err: string
    var func: string
    var file: string
    var line: int

    /** Exception(code, err, func, file, line): stores the fields, then formatMessage. */
    constructor(code: int, err: string, func: string, file: string, line: int)
      ensures this.code == code && this.err == Prefixed(err)
      ensures this.func == func && this.file == file && this.line == line
    {
      this.code := code;
      this.func := func;
      this.file := file;
      this.line := line;
      var quoted := QuoteLines(err);
      this.err := quoted;
    }

    /** formatMessage: err is replaced by its quoted form; every other field is kept. */
    method FormatMessage()
      modifies this
      ensures err == Prefixed(old(err))
      ensures code == old(code) && func == old(func) && file == old(file) && line == old(line)
    {
      err := QuoteLines(err);
    }
  }

  /** error(code, err, func, file, line): always throws; this is the exception it throws. */
  method Error(code: int, err: string, func: string, file: string, line: int) returns (thrown: Exception)
    ensures fresh(thrown)
    ensures thrown.code == code && thrown.err == Prefixed(err)
    ensures thrown.func == func && thrown.file == file && thrown.line == line
  {
    thrown := new Exception(code, err, func, file, line);
  }
}
