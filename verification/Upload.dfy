/** The chunked upload of web pages (`http_upload`, src/web/http_common.c): an
    offset-checked append that starts over at offset zero. */
module Upload {
  import opened Text
  import opened Query

  const MAX_SIZE: nat := 150 * 1024
  const CHUNK_BUF_CAP: nat := 512
  const LONG_MAX: int := 0x7FFF_FFFF

  datatype Entry = File(content: string) | Dir

  type Fs = map<string, Entry>

  /** What the file system answers during one call. `stale` is the size that the
      unset directory entry happens to hold when the target does not exist. */
  datatype Env = Env(unlinkOk: bool, stale: nat, openOk: bool, written: int)

  datatype Reason = FileRequired | InvalidFile | OffsetRequired | NegativeOffset
                  | TooLarge | PathTooLong | NotAFile | OffsetMismatch | OpenFailed

  datatype Reply = Done(body: string) | BadRequest(reason: Reason) | ServerError

  // ---- strtol with base 0 on a 32-bit long ----

  predicate IsSpace(c: char) {
    c == ' ' || 9 as char <= c <= 13 as char
  }

  function SkipSpace(s: string): string {
    if s != "" && IsSpace(s[0]) then SkipSpace(s[1..]) else s
  }

  function DigitIn(base: nat, c: char): Option<nat> {
    var d := if '0' <= c <= '9' then c as int - '0' as int
             else if 'a' <= c <= 'z' then c as int - 'a' as int + 10
             else if 'A' <= c <= 'Z' then c as int - 'A' as int + 10 else 36;
    if d < base then Some(d) else None
  }

  function Accumulate(base: nat, s: string, acc: nat): nat
    decreases |s|
  {
    if s == "" || DigitIn(base, s[0]).None? then acc
    else Accumulate(base, s[1..], acc * base + DigitIn(base, s[0]).value)
  }

  function Magnitude(s: string): nat {
    if |s| > 2 && s[0] == '0' && (s[1] == 'x' || s[1] == 'X') && DigitIn(16, s[2]).Some? then
      Accumulate(16, s[2..], 0)
    else if s != "" && s[0] == '0' then Accumulate(8, s, 0)
    else Accumulate(10, s, 0)
  }

  function Strtol(text: string): int {
    var s := SkipSpace(text);
    var negative := s != "" && s[0] == '-';
    var m: int := Magnitude(if s != "" && (s[0] == '-' || s[0] == '+') then s[1..] else s);
    if negative then (if m > LONG_MAX + 1 then -LONG_MAX - 1 else -m)
    else if m > LONG_MAX then LONG_MAX else m
  }

  // ---- the request, step by step ----

  function Target(base: string, file: string): string {
    base + "/" + file
  }

  function Unlink(fs: Fs, path: string, ok: bool): Fs {
    if ok then fs - {path} else fs
  }

  /** The part of the call after the URL has been read. */
  function Write(fs: Fs, path: string, offset: nat, body: string, env: Env): (r: (Fs, Reply))
    requires env.written <= |body|
  {
    var fs := if offset == 0 then Unlink(fs, path, env.unlinkOk) else fs;
    if path in fs && fs[path].Dir? then (fs, BadRequest(NotAFile))
    else
      var size := if path in fs then |fs[path].content| else env.stale;
      if offset > 0 && offset != size then (fs, BadRequest(OffsetMismatch))
      else if !env.openOk then (fs, BadRequest(OpenFailed))
      else
        var content := if path in fs then fs[path].content else "";
        var taken := if env.written < 0 then "" else body[..env.written];
        var fs := fs[path := File(content + taken)];
        (fs, if env.written != |body| then ServerError else Done(Decimal(offset + |body|)))
  }

  function HttpUpload(fs: Fs, base: string, url: string, body: string, env: Env): (r: (Fs, Reply))
    requires env.written <= |body|
  {
    var file := Cut(Lookup(url, "file"), 192);
    if file.None? then (fs, BadRequest(FileRequired))
    else if !Sane(file.value) then (fs, BadRequest(InvalidFile))
    else
      var text := Cut(Lookup(url, "offset"), 32);
      if text.None? then (fs, BadRequest(OffsetRequired))
      else
        var offset := Strtol(text.value);
        if offset < 0 then (fs, BadRequest(NegativeOffset))
        else if offset + |body| > MAX_SIZE then (fs, BadRequest(TooLarge))
        else if |Target(base, file.value)| >= 256 then (fs, BadRequest(PathTooLong))
        else Write(fs, Target(base, file.value), offset, body, env)
  }

  class Uploader {
    var fs: Fs
    const base: string

    constructor (fs: Fs, base: string)
      ensures this.fs == fs && this.base == base
    {
      this.fs, this.base := fs, base;
    }

    method Upload(url: string, body: string, env: Env) returns (reply: Reply)
      requires |body| <= CHUNK_BUF_CAP && env.written <= |body|
      modifies this
      ensures (fs, reply) == HttpUpload(old(fs), base, url, body, env)
    {
      var file := QueryGet(url, "file", 192);
      if file.None? {
        return BadRequest(FileRequired);
      }
      var sane := PathIsSane(file.value);
      if !sane {
        return BadRequest(InvalidFile);
      }
      var text := QueryGet(url, "offset", 32);
      if text.None? {
        return BadRequest(OffsetRequired);
      }
      var offset := Strtol(text.value);
      if offset < 0 {
        return BadRequest(NegativeOffset);
      }
      if offset + |body| > MAX_SIZE {
        return BadRequest(TooLarge);
      }
      var path := Target(base, file.value);
      if |path| >= 256 {
        return BadRequest(PathTooLong);
      }
      if offset == 0 && env.unlinkOk {
        fs := fs - {path};
      }
      var found := path in fs;
      if found && fs[path].Dir? {
        return BadRequest(NotAFile);
      }
      var size := if found then |fs[path].content| else env.stale;
      if offset > 0 && offset != size {
        return BadRequest(OffsetMismatch);
      }
      if !env.openOk {
        return BadRequest(OpenFailed);
      }
      // open for appending, creating the file if need be, then write
      var content := if found then fs[path].content else "";
      fs := fs[path := File(content + if env.written < 0 then "" else body[..env.written])];
      if env.written != |body| {
        return ServerError;
      }
      return Done(Decimal(offset + |body|));
    }
  }

  // ---- what a client's request decodes to ----

  lemma {:induction false} AccumulateSnoc(s: string, c: char, acc: nat)
    requires AllDigits(s) && IsDigit(c)
    ensures Accumulate(10, s + [c], acc) == 10 * Accumulate(10, s, acc) + DigitValue(c)
    decreases |s|
  {
    if s == "" {
      assert (s + [c])[1..] == "";
    } else {
      assert (s + [c])[1..] == s[1..] + [c];
      AccumulateSnoc(s[1..], c, acc * 10 + DigitValue(s[0]));
    }
  }

  lemma {:induction false} AccumulateDecimal(s: string)
    requires AllDigits(s)
    ensures Accumulate(10, s, 0) == DecimalValue(s)
    decreases |s|
  {
    if s != "" {
      var init := s[..|s| - 1];
      AccumulateDecimal(init);
      AccumulateSnoc(init, s[|s| - 1], 0);
      assert s == init + [s[|s| - 1]];
    }
  }

  lemma StrtolDecimal(n: nat)
    ensures Strtol(Decimal(n)) == if n > LONG_MAX then LONG_MAX else n
  {
    assert IsDigit(Decimal(n)[0]);
    MagnitudeDecimal(n);
  }

  lemma MagnitudeDecimal(n: nat)
    ensures Magnitude(Decimal(n)) == n
  {
    var s := Decimal(n);
    assert IsDigit(s[0]);
    DecimalRoundTrip(n);
    if s[0] == '0' {
      assert s == "0" && s[1..] == "" && n == 0;
      assert Accumulate(8, s, 0) == Accumulate(8, s[1..], 0);
    } else {
      AccumulateDecimal(s);
    }
  }

  function Pow10(k: nat): nat {
    if k == 0 then 1 else 10 * Pow10(k - 1)
  }

  lemma {:induction false} DecimalLength(n: nat, k: nat)
    requires k > 0 && n < Pow10(k)
    ensures |Decimal(n)| <= k
  {
    if n >= 10 {
      assert k > 1 by { assert Pow10(1) == 10 * Pow10(0); }
      DecimalLength(n / 10, k - 1);
    }
  }

  /** Cutting a decimal number to the buffer leaves the number itself or one
      that no `long` can hold. */
  lemma {:induction false} CutDecimal(n: nat)
    ensures exists m: nat :: Snprintf(32, Decimal(n)) == Decimal(m) && (m == n || (m > LONG_MAX && n > LONG_MAX))
  {
    var s := Decimal(n);
    if |s| >= 32 {
      CutDecimal(n / 10);
      var t := Decimal(n / 10);
      assert t == s[..|s| - 1];
      assert Snprintf(32, s) == Snprintf(32, t) by {
        assert |t| >= 31;
        assert s[..31] == t[..31];
      }
      if n / 10 < 1_0000_0000_00 {
        assert Pow10(10) == 1_0000_0000_00 by {
          assert Pow10(5) == 1_0000_0 by { assert Pow10(3) == 1000; }
          assert Pow10(8) == 1_0000_0000;
        }
        DecimalLength(n / 10, 10);
        assert false;
      }
    }
  }

  lemma OffsetDecodes(o: nat)
    ensures var r := Strtol(Snprintf(32, Decimal(o)));
            if o <= LONG_MAX then r == o else r == LONG_MAX
  {
    CutDecimal(o);
    var m: nat :| Snprintf(32, Decimal(o)) == Decimal(m) && (m == o || (m > LONG_MAX && o > LONG_MAX));
    StrtolDecimal(m);
  }

  /** `strtol` passes over leading spaces. */
  lemma {:induction false} SpacesSkipped(spaces: string, text: string)
    requires forall k :: 0 <= k < |spaces| ==> spaces[k] in " \t\n\r"
    requires text == "" || !IsSpace(text[0])
    ensures Strtol(spaces + text) == Strtol(text)
    decreases |spaces|
  {
    if spaces == "" {
      assert spaces + text == text;
    } else {
      assert (spaces + text)[1..] == spaces[1..] + text;
      SpacesSkipped(spaces[1..], text);
    }
  }

  /** It stops at the first character that is no digit. */
  lemma RestIsIgnored(n: nat, rest: string)
    requires n > 0 && rest != "" && !IsDigit(rest[0])
    ensures Strtol(Decimal(n) + rest) == Strtol(Decimal(n))
  {
    var s := Decimal(n);
    assert IsDigit(s[0]) && s[0] != '0' && (s + rest)[0] == s[0];
    AccumulateStops(s, rest, 0);
  }

  lemma {:induction false} AccumulateStops(s: string, rest: string, acc: nat)
    requires AllDigits(s) && rest != "" && !IsDigit(rest[0])
    ensures Accumulate(10, s + rest, acc) == Accumulate(10, s, acc)
    decreases |s|
  {
    if s == "" {
      assert s + rest == rest;
    } else {
      assert (s + rest)[1..] == s[1..] + rest;
      AccumulateStops(s[1..], rest, acc * 10 + DigitValue(s[0]));
    }
  }

  lemma NoNumberIsZero(text: string)
    requires text == "" || (!IsSpace(text[0]) && !IsDigit(text[0]) && text[0] != '-' && text[0] != '+')
    ensures Strtol(text) == 0
  {
  }

  /** With base 0 it reads hexadecimal and octal notation. */
  lemma OtherBases()
    ensures Strtol("0x1F") == 31 && Strtol("0Xa0") == 160 && Strtol("0xg") == 0
    ensures Strtol("017") == 15 && Strtol("08") == 0
  {
  }

  lemma PlusIsPositive(n: nat)
    ensures Strtol("+" + Decimal(n)) == if n > LONG_MAX then LONG_MAX else n
  {
    var s := "+" + Decimal(n);
    assert s[1..] == Decimal(n);
    MagnitudeDecimal(n);
  }

  /** A negative offset is refused as such, however many digits it has. */
  lemma MinusIsNegative(n: nat)
    requires n > 0
    ensures Strtol("-" + Decimal(n)) == -(if n > LONG_MAX + 1 then LONG_MAX + 1 else n)
  {
    var s := "-" + Decimal(n);
    assert s[1..] == Decimal(n);
    MagnitudeDecimal(n);
  }

  /** The URL a client uses for a piece. */
  function PieceUrl(name: string, offset: nat): string {
    "/api/webui/upload" + "?" + Join(PrintAll([Param("file", name), Param("offset", Decimal(offset))]), '&')
  }

  lemma PieceUrlReads(name: string, offset: nat)
    requires '&' !in name
    ensures Lookup(PieceUrl(name, offset), "file") == Some(name)
    ensures Lookup(PieceUrl(name, offset), "offset") == Some(Decimal(offset))
  {
    var ps := [Param("file", name), Param("offset", Decimal(offset))];
    assert forall c :: c in Decimal(offset) ==> IsDigit(c);
    QueryRoundTrip("/api/webui/upload", ps, "file");
    QueryRoundTrip("/api/webui/upload", ps, "offset");
    assert ps[1..][0] == ps[1];
  }

  /** Piece `offset`, `length` of the file `whole`. */
  datatype Piece = Piece(offset: nat, length: nat)

  ghost predicate FitsFile(p: Piece, env: Env, whole: string) {
    p.offset + p.length <= |whole| && p.length <= CHUNK_BUF_CAP && env.written <= p.length
  }

  function Bytes(p: Piece, whole: string): string
    requires p.offset + p.length <= |whole|
  {
    whole[p.offset..p.offset + p.length]
  }

  function SendPiece(fs: Fs, base: string, name: string, whole: string, p: Piece, env: Env): (Fs, Reply)
    requires FitsFile(p, env, whole)
  {
    HttpUpload(fs, base, PieceUrl(name, p.offset), Bytes(p, whole), env)
  }

  predicate Uploadable(base: string, name: string) {
    |name| < 192 && Sane(name) && |Target(base, name)| < 256 && '&' !in name
  }

  /** What a piece does to the file it is meant for. */
  function Apply(fs: Fs, path: string, whole: string, s: Step): (Fs, Reply)
    requires FitsFile(s.piece, s.env, whole)
  {
    if s.piece.offset + s.piece.length > MAX_SIZE then (fs, BadRequest(TooLarge))
    else Write(fs, path, s.piece.offset, Bytes(s.piece, whole), s.env)
  }

  datatype Step = Step(piece: Piece, env: Env)

  /** The request with the piece's URL reaches the file at the piece's offset. */
  lemma PieceReaches(fs: Fs, base: string, name: string, whole: string, s: Step)
    requires FitsFile(s.piece, s.env, whole) && Uploadable(base, name)
    ensures SendPiece(fs, base, name, whole, s.piece, s.env) == Apply(fs, Target(base, name), whole, s)
  {
    PieceUrlReads(name, s.piece.offset);
    OffsetDecodes(s.piece.offset);
  }

  // ---- whole uploads ----

  ghost predicate Possible(steps: seq<Step>, whole: string) {
    forall i :: 0 <= i < |steps| ==> FitsFile(steps[i].piece, steps[i].env, whole)
  }

  /** The client's requests one after the other. */
  ghost function Send(fs: Fs, base: string, name: string, whole: string, steps: seq<Step>): Fs
    requires Possible(steps, whole)
    decreases |steps|
  {
    if steps == [] then fs else
    Send(SendPiece(fs, base, name, whole, steps[0].piece, steps[0].env).0, base, name, whole, steps[1..])
  }

  ghost function ApplyAll(fs: Fs, path: string, whole: string, steps: seq<Step>): Fs
    requires Possible(steps, whole)
    decreases |steps|
  {
    if steps == [] then fs else ApplyAll(Apply(fs, path, whole, steps[0]).0, path, whole, steps[1..])
  }

  /** All requests of a client amount to their pieces applied in that order. */
  lemma {:induction false} RequestsReach(fs: Fs, base: string, name: string, whole: string, steps: seq<Step>)
    requires Possible(steps, whole) && Uploadable(base, name)
    ensures Send(fs, base, name, whole, steps) == ApplyAll(fs, Target(base, name), whole, steps)
    decreases |steps|
  {
    if steps != [] {
      PieceReaches(fs, base, name, whole, steps[0]);
      RequestsReach(Apply(fs, Target(base, name), whole, steps[0]).0, base, name, whole, steps[1..]);
    }
  }

  /** The target holds a prefix of the file and no more than the limit. */
  ghost predicate HoldsPrefix(fs: Fs, path: string, whole: string) {
    path in fs ==> fs[path].File? && fs[path].content <= whole && |fs[path].content| <= MAX_SIZE
  }

  /** Starting over removes the file that is there, and an offset is not taken at face value
      while there is no file to compare it with. */
  ghost predicate Sound(fs: Fs, path: string, s: Step) {
    && (s.piece.offset == 0 && path in fs && fs[path].File? ==> s.env.unlinkOk)
    && (path !in fs && s.piece.offset > 0 ==> s.env.stale != s.piece.offset)
  }

  /** One piece keeps a prefix, and a 200 reply is the current length. */
  lemma PieceKeepsPrefix(fs: Fs, path: string, whole: string, s: Step)
    requires FitsFile(s.piece, s.env, whole)
    requires HoldsPrefix(fs, path, whole) && Sound(fs, path, s)
    ensures var r := Apply(fs, path, whole, s);
      && HoldsPrefix(r.0, path, whole)
      && (r.1.Done? ==> path in r.0 && |r.0[path].content| == s.piece.offset + s.piece.length
                        && r.1.body == Decimal(|r.0[path].content|))
  {
    AppendedIsPrefix(s.piece, whole, if s.env.written < 0 then 0 else s.env.written);
    assert path in fs ==> fs[path].content == whole[..|fs[path].content|];
  }

  lemma AppendedIsPrefix(p: Piece, whole: string, n: nat)
    requires p.offset + p.length <= |whole| && n <= p.length
    ensures whole[..p.offset] + Bytes(p, whole)[..n] == whole[..p.offset + n]
    ensures "" + Bytes(p, whole)[..n] == Bytes(p, whole)[..n]
  {
  }

  /** The steps of an upload with the state each one meets. */
  ghost predicate AllSound(fs: Fs, path: string, whole: string, steps: seq<Step>)
    requires Possible(steps, whole)
    decreases |steps|
  {
    steps != [] ==>
      Sound(fs, path, steps[0]) && AllSound(Apply(fs, path, whole, steps[0]).0, path, whole, steps[1..])
  }

  lemma {:induction false} RunKeepsPrefix(fs: Fs, path: string, whole: string, steps: seq<Step>)
    requires Possible(steps, whole)
    requires HoldsPrefix(fs, path, whole) && AllSound(fs, path, whole, steps)
    ensures HoldsPrefix(ApplyAll(fs, path, whole, steps), path, whole)
    decreases |steps|
  {
    if steps != [] {
      PieceKeepsPrefix(fs, path, whole, steps[0]);
      RunKeepsPrefix(Apply(fs, path, whole, steps[0]).0, path, whole, steps[1..]);
    }
  }

  lemma FirstPieceHolds(fs: Fs, path: string, whole: string, start: Step)
    requires FitsFile(start.piece, start.env, whole) && start.piece.offset == 0 && Sound(fs, path, start)
    requires Apply(fs, path, whole, start).1.Done?
    ensures HoldsPrefix(Apply(fs, path, whole, start).0, path, whole)
  {
    assert Bytes(start.piece, whole) == whole[..start.piece.length];
  }

  /** Whatever was stored before: once a piece at offset zero is accepted, the
      target holds a prefix of the file after every further sequence of pieces,
      in any order, repeated, lost or only partly written. */
  lemma UploadHoldsPrefix(fs: Fs, path: string, whole: string, start: Step, steps: seq<Step>)
    requires FitsFile(start.piece, start.env, whole) && Possible(steps, whole)
    requires start.piece.offset == 0 && Sound(fs, path, start)
    requires Apply(fs, path, whole, start).1.Done?
    requires AllSound(Apply(fs, path, whole, start).0, path, whole, steps)
    ensures HoldsPrefix(ApplyAll(Apply(fs, path, whole, start).0, path, whole, steps), path, whole)
  {
    FirstPieceHolds(fs, path, whole, start);
    RunKeepsPrefix(Apply(fs, path, whole, start).0, path, whole, steps);
  }

  /** A client that starts over after a piece at offset zero could not be opened,
      and whose removals work. */
  ghost predicate Careful(fs: Fs, path: string, whole: string, steps: seq<Step>)
    requires Possible(steps, whole)
    decreases |steps|
  {
    steps != [] ==>
      var s, r := steps[0], Apply(fs, path, whole, steps[0]);
      && (s.piece.offset == 0 ==> s.env.unlinkOk)
      && (s.piece.offset == 0 && r.1 == BadRequest(OpenFailed) && |steps| > 1 ==> steps[1].piece.offset == 0)
      && Careful(r.0, path, whole, steps[1..])
  }

  /** The same for such a client, whatever the unset size happens to be. */
  lemma CarefulClientHoldsPrefix(fs: Fs, path: string, whole: string, start: Step, steps: seq<Step>)
    requires FitsFile(start.piece, start.env, whole) && Possible(steps, whole)
    requires start.piece.offset == 0 && start.env.unlinkOk
    requires Apply(fs, path, whole, start).1.Done?
    requires Careful(Apply(fs, path, whole, start).0, path, whole, steps)
    ensures HoldsPrefix(ApplyAll(Apply(fs, path, whole, start).0, path, whole, steps), path, whole)
  {
    FirstPieceHolds(fs, path, whole, start);
    CarefulIsSound(Apply(fs, path, whole, start).0, path, whole, steps);
    UploadHoldsPrefix(fs, path, whole, start, steps);
  }

  lemma {:induction false} CarefulIsSound(fs: Fs, path: string, whole: string, steps: seq<Step>)
    requires Possible(steps, whole) && Careful(fs, path, whole, steps) && HoldsPrefix(fs, path, whole)
    requires path in fs || steps == [] || steps[0].piece.offset == 0
    ensures AllSound(fs, path, whole, steps)
    decreases |steps|
  {
    if steps != [] {
      PieceKeepsPrefix(fs, path, whole, steps[0]);
      CarefulIsSound(Apply(fs, path, whole, steps[0]).0, path, whole, steps[1..]);
    }
  }

  // ---- refusals ----

  /** Which requests are refused, and why: the first complaint counts. */
  lemma RefusedIff(fs: Fs, base: string, url: string, body: string, env: Env)
    requires env.written <= |body|
    ensures var r := HttpUpload(fs, base, url, body, env);
      var file, offset := Lookup(url, "file"), Lookup(url, "offset");
      && (r.1 == BadRequest(FileRequired) <==> file.None?)
      && (r.1 == BadRequest(InvalidFile) <==> file.Some? && !Sane(Snprintf(192, file.value)))
      && (r.1 == BadRequest(OffsetRequired) <==> file.Some? && Sane(Snprintf(192, file.value)) && offset.None?)
      && (r.1 == BadRequest(NegativeOffset) <==>
            && file.Some? && Sane(Snprintf(192, file.value)) && offset.Some?
            && Strtol(Snprintf(32, offset.value)) < 0)
      && (r.1 == BadRequest(TooLarge) <==>
            && file.Some? && Sane(Snprintf(192, file.value)) && offset.Some?
            && Strtol(Snprintf(32, offset.value)) >= 0
            && Strtol(Snprintf(32, offset.value)) + |body| > MAX_SIZE)
      && (r.1 == BadRequest(PathTooLong) <==>
            && file.Some? && Sane(Snprintf(192, file.value)) && offset.Some?
            && 0 <= Strtol(Snprintf(32, offset.value)) <= MAX_SIZE - |body|
            && |base| + 1 + |Snprintf(192, file.value)| >= 256)
  {
  }

  /** A refused request changes nothing, unless the old file had been removed and
      the new one could not be opened. */
  lemma RefusedLeavesFiles(fs: Fs, base: string, url: string, body: string, env: Env)
    requires env.written <= |body|
    ensures var r := HttpUpload(fs, base, url, body, env);
      r.1.BadRequest? ==> r.0 == fs || (r.1.reason == OpenFailed && exists q :: r.0 == fs - {q})
  {
    var r := HttpUpload(fs, base, url, body, env);
    if r.1.BadRequest? && r.0 != fs {
      var q := Target(base, Cut(Lookup(url, "file"), 192).value);
      assert r.0 == fs - {q};
    }
  }

  /** A negative offset is refused before anything is touched. */
  lemma NegativeOffsetRefused(fs: Fs, base: string, url: string, body: string, env: Env, name: string, n: nat)
    requires env.written <= |body| && 0 < n < Pow10(9)
    requires Lookup(url, "file") == Some(name) && Sane(Snprintf(192, name))
    requires Lookup(url, "offset") == Some("-" + Decimal(n))
    ensures HttpUpload(fs, base, url, body, env) == (fs, BadRequest(NegativeOffset))
  {
    DecimalLength(n, 9);
    MinusIsNegative(n);
  }

  /** What a piece does to a file that is there, exactly. */
  lemma LatePieceOutcome(fs: Fs, path: string, offset: nat, body: string, env: Env)
    requires env.written <= |body| && offset > 0 && path in fs && fs[path].File?
    ensures var r, taken := Write(fs, path, offset, body, env), if env.written < 0 then 0 else env.written;
      && (r.1 == BadRequest(OffsetMismatch) <==> |fs[path].content| != offset)
      && (r.1 == BadRequest(OpenFailed) <==> |fs[path].content| == offset && !env.openOk)
      && (r.1.BadRequest? ==> r.0 == fs)
      && (!r.1.BadRequest? ==> r.0 == fs[path := File(fs[path].content + body[..taken])])
      && (r.1 == ServerError <==> |fs[path].content| == offset && env.openOk && env.written != |body|)
      && (r.1.Done? ==> r.1.body == Decimal(offset + |body|))
  {
  }

  /** And a piece at offset zero, to whatever is there. */
  lemma FirstPieceOutcome(fs: Fs, path: string, body: string, env: Env)
    requires env.written <= |body|
    ensures var r, taken := Write(fs, path, 0, body, env), if env.written < 0 then 0 else env.written;
      var kept := if path in fs && fs[path].File? && !env.unlinkOk then fs[path].content else "";
      && (r.1 == BadRequest(NotAFile) <==> path in fs && fs[path].Dir? && !env.unlinkOk)
      && (r.1 == BadRequest(OpenFailed) <==> !env.openOk && !(path in fs && fs[path].Dir? && !env.unlinkOk))
      && (r.1 == BadRequest(NotAFile) ==> r.0 == fs)
      && (r.1 == BadRequest(OpenFailed) ==> r.0 == if env.unlinkOk then fs - {path} else fs)
      && (!r.1.BadRequest? ==> r.0 == fs[path := File(kept + body[..taken])])
      && (!r.1.BadRequest? ==> r.1 == if env.written == |body| then Done(Decimal(|body|)) else ServerError)
  {
    assert (fs - {path})[path := File("" + body[..0])] == fs[path := File("" + body[..0])];
  }

  // ---- which single pieces can break the prefix ----

  /** A piece at a positive offset keeps the prefix whatever the unset size and
      the file system's answers are exactly when the target exists, or the piece
      is too large, or its bytes happen to be the start of the file. */
  lemma LatePieceIsSafeIff(fs: Fs, path: string, whole: string, p: Piece)
    requires p.offset > 0 && p.offset + p.length <= |whole| && p.length <= CHUNK_BUF_CAP
    requires HoldsPrefix(fs, path, whole)
    ensures (forall env :: FitsFile(p, env, whole) ==> HoldsPrefix(Apply(fs, path, whole, Step(p, env)).0, path, whole))
       <==> path in fs || p.offset + p.length > MAX_SIZE || Bytes(p, whole) <= whole
  {
    if path in fs || p.offset + p.length > MAX_SIZE || Bytes(p, whole) <= whole {
      forall env | FitsFile(p, env, whole)
        ensures HoldsPrefix(Apply(fs, path, whole, Step(p, env)).0, path, whole)
      {
        LatePieceSafe(fs, path, whole, p, env);
      }
    } else {
      LatePieceBreaks(fs, path, whole, p);
    }
  }

  lemma LatePieceSafe(fs: Fs, path: string, whole: string, p: Piece, env: Env)
    requires p.offset > 0 && FitsFile(p, env, whole) && HoldsPrefix(fs, path, whole)
    requires path in fs || p.offset + p.length > MAX_SIZE || Bytes(p, whole) <= whole
    ensures HoldsPrefix(Apply(fs, path, whole, Step(p, env)).0, path, whole)
  {
    if path in fs {
      PieceKeepsPrefix(fs, path, whole, Step(p, env));
    } else {
      var taken := if env.written < 0 then "" else Bytes(p, whole)[..env.written];
      assert "" + taken == taken;
    }
  }

  /** The unset size equals the offset, and the bytes go to the front. */
  lemma LatePieceBreaks(fs: Fs, path: string, whole: string, p: Piece)
    requires p.offset > 0 && p.offset + p.length <= |whole| && p.length <= CHUNK_BUF_CAP
    requires path !in fs && p.offset + p.length <= MAX_SIZE && !(Bytes(p, whole) <= whole)
    ensures FitsFile(p, Env(true, p.offset, true, p.length), whole)
    ensures !HoldsPrefix(Apply(fs, path, whole, Step(p, Env(true, p.offset, true, p.length))).0, path, whole)
  {
    var bytes := Bytes(p, whole);
    assert "" + bytes[..p.length] == bytes;
  }

  /** A piece at offset zero, whose removal of the old file may fail unnoticed,
      over any earlier content: when it is accepted the target is sure to hold a
      prefix of the client's file exactly when there was no file, or appending the
      piece to the old content happens to leave a prefix as well. */
  lemma FirstPieceIsSafeIff(fs: Fs, path: string, whole: string, p: Piece)
    requires p.offset == 0 && p.length <= |whole| && p.length <= CHUNK_BUF_CAP
    ensures (forall env :: FitsFile(p, env, whole) && Apply(fs, path, whole, Step(p, env)).1.Done?
                           ==> HoldsPrefix(Apply(fs, path, whole, Step(p, env)).0, path, whole))
       <==> AppendsToPrefix(fs, path, whole, p)
  {
    if AppendsToPrefix(fs, path, whole, p) {
      forall env | FitsFile(p, env, whole) && Apply(fs, path, whole, Step(p, env)).1.Done?
        ensures HoldsPrefix(Apply(fs, path, whole, Step(p, env)).0, path, whole)
      {
        FirstPieceSafe(fs, path, whole, p, env);
      }
    } else {
      FirstPieceBreaks(fs, path, whole, p);
    }
  }

  /** The file that is there, if any, with the piece behind it. */
  ghost predicate AppendsToPrefix(fs: Fs, path: string, whole: string, p: Piece)
    requires p.offset + p.length <= |whole|
  {
    path in fs && fs[path].File? ==>
      fs[path].content + Bytes(p, whole) <= whole && |fs[path].content| + p.length <= MAX_SIZE
  }

  lemma FirstPieceSafe(fs: Fs, path: string, whole: string, p: Piece, env: Env)
    requires p.offset == 0 && FitsFile(p, env, whole) && AppendsToPrefix(fs, path, whole, p)
    requires Apply(fs, path, whole, Step(p, env)).1.Done?
    ensures HoldsPrefix(Apply(fs, path, whole, Step(p, env)).0, path, whole)
  {
    assert Bytes(p, whole)[..p.length] == Bytes(p, whole) == whole[..p.length];
    assert "" + Bytes(p, whole) == Bytes(p, whole);
  }

  /** The removal fails, everything else works. */
  lemma FirstPieceBreaks(fs: Fs, path: string, whole: string, p: Piece)
    requires p.offset == 0 && p.length <= |whole| && p.length <= CHUNK_BUF_CAP
    requires !AppendsToPrefix(fs, path, whole, p)
    ensures FitsFile(p, Env(false, 0, true, p.length), whole)
    ensures var r := Apply(fs, path, whole, Step(p, Env(false, 0, true, p.length)));
      r.1.Done? && !HoldsPrefix(r.0, path, whole)
  {
    assert Bytes(p, whole)[..p.length] == Bytes(p, whole);
  }

  /** The case that happens: an old version under the same name, which is not the
      start of the new one, stays in front of the new bytes, and the reply is that
      of a complete piece. */
  lemma OldVersionStays(fs: Fs, path: string, whole: string, p: Piece, before: string)
    requires p.offset == 0 && p.length <= |whole| && p.length <= CHUNK_BUF_CAP
    requires path in fs && fs[path] == File(before) && !(before <= whole)
    ensures FitsFile(p, Env(false, 0, true, p.length), whole)
    ensures var r := Apply(fs, path, whole, Step(p, Env(false, 0, true, p.length)));
      && r.1 == Done(Decimal(p.length)) && r.0 == fs[path := File(before + Bytes(p, whole))]
      && !HoldsPrefix(r.0, path, whole)
  {
    assert Bytes(p, whole)[..p.length] == Bytes(p, whole);
    StaysInFront(before, Bytes(p, whole), whole);
  }

  lemma StaysInFront(before: string, bytes: string, whole: string)
    requires !(before <= whole)
    ensures !(before + bytes <= whole)
  {
    assert before == (before + bytes)[..|before|];
  }

  /** Between restarts the stored file only grows. */
  lemma {:induction false} GrowsBetweenRestarts(fs: Fs, path: string, whole: string, steps: seq<Step>)
    requires Possible(steps, whole) && path in fs && fs[path].File?
    requires forall i :: 0 <= i < |steps| ==> steps[i].piece.offset > 0
    ensures var fs' := ApplyAll(fs, path, whole, steps);
      path in fs' && fs'[path].File? && fs[path].content <= fs'[path].content
    decreases |steps|
  {
    if steps != [] {
      GrowsBetweenRestarts(Apply(fs, path, whole, steps[0]).0, path, whole, steps[1..]);
    }
  }

  /** A piece at a positive offset that changes anything grows the file past that
      offset. */
  lemma PieceAdds(fs: Fs, path: string, whole: string, s: Step)
    requires FitsFile(s.piece, s.env, whole) && s.piece.offset > 0 && path in fs && fs[path].File?
    ensures var fs' := Apply(fs, path, whole, s).0;
      fs' != fs ==> path in fs' && fs'[path].File? && |fs'[path].content| > s.piece.offset
  {
    assert fs[path].content + "" == fs[path].content;
    assert fs[path := fs[path]] == fs;
  }

  /** Once a piece at a positive offset has added anything, the same offset is
      refused until the next restart, and nothing is written. */
  lemma PieceAppliedOnce(fs: Fs, path: string, whole: string, s: Step, fs1: Fs, steps: seq<Step>, again: Step)
    requires FitsFile(s.piece, s.env, whole) && Possible(steps, whole) && FitsFile(again.piece, again.env, whole)
    requires path in fs && fs[path].File?
    requires s.piece.offset > 0 && fs1 == Apply(fs, path, whole, s).0 && fs1 != fs
    requires forall i :: 0 <= i < |steps| ==> steps[i].piece.offset > 0
    requires again.piece.offset == s.piece.offset
    ensures var fs2 := ApplyAll(fs1, path, whole, steps);
      Apply(fs2, path, whole, again) == (fs2, BadRequest(OffsetMismatch))
      || Apply(fs2, path, whole, again) == (fs2, BadRequest(TooLarge))
  {
    PieceAdds(fs, path, whole, s);
    GrowsBetweenRestarts(fs1, path, whole, steps);
  }

  /** A client that sends the file from the start in pieces of `chunk` bytes. */
  function InOrder(whole: string, from: nat, chunk: nat): seq<Step>
    requires from <= |whole| && chunk > 0
    decreases |whole| - from
  {
    var n := PieceLength(whole, from, chunk);
    [GoodPiece(from, n)] + if from + n == |whole| then [] else InOrder(whole, from + n, chunk)
  }

  function PieceLength(whole: string, from: nat, chunk: nat): nat
    requires from <= |whole|
  {
    if |whole| - from < chunk then |whole| - from else chunk
  }

  function GoodPiece(from: nat, n: nat): Step {
    Step(Piece(from, n), Env(true, 0, true, n))
  }

  lemma {:induction false} InOrderPossible(whole: string, from: nat, chunk: nat)
    requires from <= |whole| && 0 < chunk <= CHUNK_BUF_CAP
    ensures Possible(InOrder(whole, from, chunk), whole)
    decreases |whole| - from
  {
    var n := PieceLength(whole, from, chunk);
    if from + n != |whole| {
      InOrderPossible(whole, from + n, chunk);
      var rest := InOrder(whole, from + n, chunk);
      assert forall i :: 1 <= i < |rest| + 1 ==> InOrder(whole, from, chunk)[i] == rest[i - 1];
    }
  }

  lemma PieceAppends(fs: Fs, path: string, whole: string, from: nat, n: nat)
    requires from + n <= |whole| <= MAX_SIZE && n <= CHUNK_BUF_CAP
    requires from == 0 ==> !(path in fs && fs[path].Dir?)
    requires from > 0 ==> path in fs && fs[path] == File(whole[..from])
    ensures var r := Apply(fs, path, whole, GoodPiece(from, n));
      r.1 == Done(Decimal(from + n)) && path in r.0 && r.0[path] == File(whole[..from + n])
  {
    var bytes := whole[from..from + n];
    assert bytes[..n] == bytes && "" + bytes == bytes;
    assert whole[..from] + bytes == whole[..from + n];
  }

  /** Without faults, sending the pieces in order leaves the whole file, whatever
      file was there before. */
  lemma {:induction false} InOrderUploadCompletes(fs: Fs, path: string, whole: string, from: nat, chunk: nat)
    requires from <= |whole| <= MAX_SIZE && 0 < chunk <= CHUNK_BUF_CAP
    requires from == 0 ==> !(path in fs && fs[path].Dir?)
    requires from > 0 ==> path in fs && fs[path] == File(whole[..from])
    ensures Possible(InOrder(whole, from, chunk), whole)
    ensures var fs' := ApplyAll(fs, path, whole, InOrder(whole, from, chunk));
      path in fs' && fs'[path] == File(whole)
    decreases |whole| - from
  {
    InOrderPossible(whole, from, chunk);
    var n := PieceLength(whole, from, chunk);
    PieceAppends(fs, path, whole, from, n);
    var fs1 := Apply(fs, path, whole, GoodPiece(from, n)).0;
    InOrderFirst(fs, path, whole, from, chunk);
    if from + n == |whole| {
      assert whole[..|whole|] == whole;
    } else {
      InOrderUploadCompletes(fs1, path, whole, from + n, chunk);
    }
  }

  /** The first of these pieces, then the others. */
  lemma InOrderFirst(fs: Fs, path: string, whole: string, from: nat, chunk: nat)
    requires from <= |whole| && 0 < chunk <= CHUNK_BUF_CAP && Possible(InOrder(whole, from, chunk), whole)
    ensures var n := PieceLength(whole, from, chunk);
      var rest := if from + n == |whole| then [] else InOrder(whole, from + n, chunk);
      && FitsFile(GoodPiece(from, n).piece, GoodPiece(from, n).env, whole) && Possible(rest, whole)
      && ApplyAll(fs, path, whole, InOrder(whole, from, chunk))
         == ApplyAll(Apply(fs, path, whole, GoodPiece(from, n)).0, path, whole, rest)
  {
    var n := PieceLength(whole, from, chunk);
    var rest := if from + n == |whole| then [] else InOrder(whole, from + n, chunk);
    var steps := InOrder(whole, from, chunk);
    assert steps[0] == GoodPiece(from, n) && steps[1..] == rest;
    assert forall i :: 0 <= i < |rest| ==> rest[i] == steps[i + 1];
  }

  lemma OnlyTarget(fs: Fs, base: string, url: string, body: string, env: Env, q: string) returns (rel: string)
    requires env.written <= |body|
    requires var fs' := HttpUpload(fs, base, url, body, env).0;
             (q in fs) != (q in fs') || (q in fs && fs[q] != fs'[q])
    ensures Cut(Lookup(url, "file"), 192) == Some(rel) && q == Target(base, rel) && Sane(rel)
  {
    rel := Cut(Lookup(url, "file"), 192).value;
  }

  /** A call changes nothing but the file it names, and that lies strictly below
      the base. */
  lemma OnlyBelowBase(fs: Fs, base: string, url: string, body: string, env: Env, q: string)
    requires env.written <= |body|
    requires var fs' := HttpUpload(fs, base, url, body, env).0;
             (q in fs) != (q in fs') || (q in fs && fs[q] != fs'[q])
    ensures exists rel :: Cut(Lookup(url, "file"), 192) == Some(rel) && q == Target(base, rel)
    ensures Resolve([], Split(base, '/')) < Resolve([], Split(q, '/'))
  {
    var rel := OnlyTarget(fs, base, url, body, env, q);
    JoinedStaysBelow(base, rel);
  }
}
