/**
 * The status page of webserver.c: `replace_placeholder`, an in-place
 * first-occurrence substitution on a bounded NUL-terminated buffer, and
 * `get_index_page`, which copies the embedded HTML template into a response
 * buffer and fills its six placeholders in a fixed order.
 */
module Webserver {
  import opened Wrappers
  import opened CStrings
  import opened JsonReading

  /** Where `replace_placeholder` splices on the string `s` held in a buffer
      of `size` bytes: at the first occurrence of `p`, provided the result
      with its terminator fits (`len_before + len_replacement + len_after <
      buffer_size`); `None` when `p` does not occur or the result would not fit. */
  function Placement(s: seq<char>, size: nat, p: seq<char>, r: seq<char>): (at: Option<nat>)
    ensures at.Some? ==> OccursAt(s, p, at.value) && at.value + |r| + (|s| - at.value - |p|) < size
    ensures at.None? ==> Find(s, p).None? || Find(s, p).value + |r| + (|s| - Find(s, p).value - |p|) >= size
    ensures at.Some? ==> Find(s, p) == at
  {
    match Find(s, p)
    case None => None
    case Some(pos) => if pos + |r| + (|s| - pos - |p|) < size then Some(pos) else None
  }

  /** `replace_placeholder` on the string `s` held in a buffer of `size` bytes:
      the first occurrence of `p` becomes `r` when the result, with its
      terminator, fits; otherwise the string is left as it is. */
  function Substitute(s: seq<char>, size: nat, p: seq<char>, r: seq<char>): (t: seq<char>)
    ensures t == s || |t| < size
  {
    match Placement(s, size, p, r)
    case None => s
    case Some(pos) => s[..pos] + r + s[pos + |p|..]
  }

  /** Where `replace_placeholder` splices, the string is the splice. */
  lemma SubstituteAt(s: seq<char>, size: nat, p: seq<char>, r: seq<char>, pos: nat)
    requires Placement(s, size, p, r) == Some(pos)
    ensures pos + |p| <= |s|
    ensures Substitute(s, size, p, r) == s[..pos] + r + s[pos + |p|..]
  {
  }

  /** No occurrence of the placeholder: the string is unchanged. */
  lemma SubstituteAbsent(s: seq<char>, size: nat, p: seq<char>, r: seq<char>)
    requires forall j :: 0 <= j <= |s| ==> !OccursAt(s, p, j)
    ensures Substitute(s, size, p, r) == s
  {
    FindFirst(s, p);
  }

  /** The first occurrence, at `i`, is replaced when the result fits:
      the text before it, then the replacement, then the text after it. */
  lemma SubstituteFirst(s: seq<char>, size: nat, p: seq<char>, r: seq<char>, i: nat)
    requires OccursAt(s, p, i) && forall j :: 0 <= j < i ==> !OccursAt(s, p, j)
    requires |s| - |p| + |r| < size
    ensures Substitute(s, size, p, r) == s[..i] + r + s[i + |p|..]
  {
    FindIsFirst(s, p, i);
  }

  /** A result that would not fit (with its terminator) leaves the string unchanged. */
  lemma SubstituteTooLong(s: seq<char>, size: nat, p: seq<char>, r: seq<char>)
    requires Find(s, p).Some? && |s| - |p| + |r| >= size
    ensures Substitute(s, size, p, r) == s
  {
  }

  /** A string that fits its buffer still fits after a substitution, stays
      NUL-free, and keeps every character before the placeholder. */
  lemma SubstituteKeepsBounds(s: seq<char>, size: nat, p: seq<char>, r: seq<char>)
    requires |s| < size && NUL !in s && NUL !in r
    ensures var t := Substitute(s, size, p, r);
            && |t| < size && NUL !in t
            && match Find(s, p) { case None => t == s case Some(pos) => t[..pos] == s[..pos] }
  {
    var t := Substitute(s, size, p, r);
    match Find(s, p)
    case None =>
    case Some(pos) =>
      var after := s[pos + |p|..];
      if pos + |r| + |after| < size {
        assert t == s[..pos] + r + after;
        assert t[..pos] == s[..pos];
        SpliceNulFree(s, pos, |p|, r);
      }
  }

  /** Splicing NUL-free text into a NUL-free string leaves it NUL-free. */
  lemma SpliceNulFree(s: seq<char>, pos: nat, n: nat, r: seq<char>)
    requires NUL !in s && NUL !in r && pos + n <= |s|
    ensures NUL !in s[..pos] + r + s[pos + n..]
  {
    var t := s[..pos] + r + s[pos + n..];
    forall k | 0 <= k < |t| ensures t[k] != NUL {
      if k < pos {
        assert t[k] == s[k];
      } else if k < pos + |r| {
        assert t[k] == r[k - pos];
      } else {
        assert t[k] == s[k - |r| + n];
      }
    }
  }

  /** What `replace_placeholder` does to a buffer: nothing, or move the
      `moveLen` bytes after the placeholder (its text and the terminator) to
      `pos + |r|` and copy the replacement to `pos`. */
  datatype Edit = Unchanged | SpliceAt(pos: nat, moveLen: nat)

  /** The edit `replace_placeholder(buf, |buf|, p, r)` makes. */
  function PlannedEdit(buf: seq<char>, p: seq<char>, r: seq<char>): (e: Edit)
    requires Terminated(buf)
    ensures e.SpliceAt? ==> e.pos + |p| + e.moveLen <= |buf| && e.pos + |r| + e.moveLen <= |buf|
  {
    var s := CString(buf);
    match Placement(s, |buf|, p, r)
    case None => Unchanged
    case Some(pos) => SpliceAt(pos, |s| - pos - |p| + 1)
  }

  /** The whole buffer after `replace_placeholder(buf, |buf|, p, r)`; bytes
      past the new terminator keep whatever they held. */
  function EditedBuffer(buf: seq<char>, p: seq<char>, r: seq<char>): (e: seq<char>)
    requires Terminated(buf)
    ensures |e| == |buf|
  {
    match PlannedEdit(buf, p, r)
    case Unchanged => buf
    case SpliceAt(pos, moveLen) => Spliced(buf, pos, |p|, r, moveLen)
  }

  /** `memmove(pos + |r|, pos + lenPlaceholder, n)` then `memcpy(pos, r, |r|)`. */
  function Spliced(buf: seq<char>, pos: nat, lenPlaceholder: nat, r: seq<char>, n: nat): seq<char>
    requires pos + lenPlaceholder + n <= |buf| && pos + |r| + n <= |buf|
  {
    Overwrite(Overwrite(buf, pos + |r|, buf[pos + lenPlaceholder..pos + lenPlaceholder + n]), pos, r)
  }

  /** The splice lays out the bytes before `pos`, the replacement, the moved
      `n` bytes, then the untouched rest. */
  lemma MoveThenCopy(buf: seq<char>, pos: nat, lenPlaceholder: nat, r: seq<char>, n: nat)
    requires pos + lenPlaceholder + n <= |buf| && pos + |r| + n <= |buf|
    ensures Spliced(buf, pos, lenPlaceholder, r, n)
            == buf[..pos] + r + buf[pos + lenPlaceholder..pos + lenPlaceholder + n] + buf[pos + |r| + n..]
  {
    var tail := buf[pos + lenPlaceholder..pos + lenPlaceholder + n];
    var moved := Overwrite(buf, pos + |r|, tail);
    assert moved[..pos] == buf[..pos];
    assert moved[pos + |r|..] == tail + buf[pos + |r| + n..];
    assert Overwrite(moved, pos, r) == buf[..pos] + r + (tail + buf[pos + |r| + n..]);
  }

  /** A terminated buffer split around a range of its string. */
  lemma StringPieces(buf: seq<char>, s: seq<char>, pos: nat, n: nat, m: nat)
    requires Terminated(buf) && s == CString(buf) && 1 <= m && pos + n + m == |s| + 1
    ensures buf[..pos] == s[..pos]
    ensures buf[pos + n..pos + n + m] == s[pos + n..] + [NUL]
  {
    CStringPrefix(buf);
    assert buf[pos + n..pos + n + m] == buf[..|s|][pos + n..] + [buf[|s|]];
  }

  lemma Layout(e: seq<char>, buf: seq<char>, s: seq<char>, pos: nat, n: nat, r: seq<char>, m: nat)
    requires 1 <= m && pos + n + m == |s| + 1 && |s| < |buf| && pos + |r| + m <= |buf|
    requires e == buf[..pos] + r + buf[pos + n..pos + n + m] + buf[pos + |r| + m..]
    requires buf[..pos] == s[..pos] && buf[pos + n..pos + n + m] == s[pos + n..] + [NUL]
    ensures e == (s[..pos] + r + s[pos + n..]) + [NUL] + buf[pos + |r| + m..]
  {
  }

  /** Splicing `r` over `n` characters at `pos` of a terminated buffer's
      string: the new string, its terminator, then the bytes beyond. */
  lemma SplicedBuffer(buf: seq<char>, s: seq<char>, pos: nat, n: nat, r: seq<char>, m: nat)
    requires Terminated(buf) && s == CString(buf) && 1 <= m && pos + n + m == |s| + 1
    requires pos + |r| + m <= |buf|
    ensures Spliced(buf, pos, n, r, m) == (s[..pos] + r + s[pos + n..]) + [NUL] + buf[pos + |r| + m..]
  {
    MoveThenCopy(buf, pos, n, r, m);
    StringPieces(buf, s, pos, n, m);
    Layout(Spliced(buf, pos, n, r, m), buf, s, pos, n, r, m);
  }

  /** After the splice the buffer holds the spliced string, still terminated. */
  lemma SplicedString(buf: seq<char>, s: seq<char>, pos: nat, n: nat, r: seq<char>, m: nat)
    requires Terminated(buf) && s == CString(buf) && NUL !in r && 1 <= m && pos + n + m == |s| + 1
    requires pos + |r| + m <= |buf|
    ensures Terminated(Spliced(buf, pos, n, r, m))
    ensures CString(Spliced(buf, pos, n, r, m)) == s[..pos] + r + s[pos + n..]
  {
    SplicedBuffer(buf, s, pos, n, r, m);
    var text := s[..pos] + r + s[pos + n..];
    SpliceNulFree(s, pos, n, r);
    CStringOfTerminated(text, buf[pos + |r| + m..]);
    assert Spliced(buf, pos, n, r, m)[|text|] == NUL;
  }

  /** The edited buffer holds exactly the substituted string, still terminated. */
  lemma EditedBufferHoldsSubstitute(buf: seq<char>, p: seq<char>, r: seq<char>)
    requires Terminated(buf) && NUL !in r
    ensures var e := EditedBuffer(buf, p, r);
            && Terminated(e)
            && CString(e) == Substitute(CString(buf), |buf|, p, r)
  {
    match Placement(CString(buf), |buf|, p, r)
    case None =>
      assert PlannedEdit(buf, p, r) == Unchanged;
    case Some(pos) =>
      SplicedHoldsSubstitute(buf, p, r, pos);
  }

  /** Where `replace_placeholder` splices, the buffer holds the substituted string. */
  lemma SplicedHoldsSubstitute(buf: seq<char>, p: seq<char>, r: seq<char>, pos: nat)
    requires Terminated(buf) && NUL !in r && Placement(CString(buf), |buf|, p, r) == Some(pos)
    ensures Terminated(EditedBuffer(buf, p, r))
    ensures CString(EditedBuffer(buf, p, r)) == Substitute(CString(buf), |buf|, p, r)
  {
    var s := CString(buf);
    var m := |s| - pos - |p| + 1;
    PlannedSplice(buf, p, r, pos);
    EditIsSplice(buf, p, r, pos, m);
    SplicedAtPlacement(buf, p, r, pos);
    var e := Spliced(buf, pos, |p|, r, m);
    assert EditedBuffer(buf, p, r) == e;
    SubstituteAt(s, |buf|, p, r, pos);
    assert CString(e) == s[..pos] + r + s[pos + |p|..] == Substitute(s, |buf|, p, r);
  }

  /** Where `replace_placeholder` splices, it moves the placeholder's tail and the terminator. */
  lemma PlannedSplice(buf: seq<char>, p: seq<char>, r: seq<char>, pos: nat)
    requires Terminated(buf) && Placement(CString(buf), |buf|, p, r) == Some(pos)
    ensures pos + |p| <= |CString(buf)|
    ensures PlannedEdit(buf, p, r) == SpliceAt(pos, |CString(buf)| - pos - |p| + 1)
  {
  }

  /** A planned splice is carried out by `Spliced`. */
  lemma EditIsSplice(buf: seq<char>, p: seq<char>, r: seq<char>, pos: nat, m: nat)
    requires Terminated(buf) && PlannedEdit(buf, p, r) == SpliceAt(pos, m)
    ensures pos + |p| + m <= |buf| && pos + |r| + m <= |buf|
    ensures EditedBuffer(buf, p, r) == Spliced(buf, pos, |p|, r, m)
  {
  }

  /** The splice at the placement holds the spliced string, still terminated. */
  lemma SplicedAtPlacement(buf: seq<char>, p: seq<char>, r: seq<char>, pos: nat)
    requires Terminated(buf) && NUL !in r && Placement(CString(buf), |buf|, p, r) == Some(pos)
    ensures pos + |p| <= |CString(buf)| && pos + |r| + (|CString(buf)| - pos - |p| + 1) <= |buf|
    ensures Terminated(Spliced(buf, pos, |p|, r, |CString(buf)| - pos - |p| + 1))
    ensures CString(Spliced(buf, pos, |p|, r, |CString(buf)| - pos - |p| + 1))
            == CString(buf)[..pos] + r + CString(buf)[pos + |p|..]
  {
    PlacementFits(CString(buf), |buf|, p, r, pos);
    SplicedString(buf, CString(buf), pos, |p|, r, |CString(buf)| - pos - |p| + 1);
  }

  /** The placeholder lies inside the string, and the spliced string with its terminator fits. */
  lemma PlacementFits(s: seq<char>, size: nat, p: seq<char>, r: seq<char>, pos: nat)
    requires Placement(s, size, p, r) == Some(pos)
    ensures pos + |p| <= |s| && pos + |r| + (|s| - pos - |p| + 1) <= size
  {
  }

  /** `memmove(pos + |r|, pos + lenPlaceholder, n)` then `memcpy(pos, r, |r|)` on the buffer. */
  method Splice(buffer: array<char>, pos: nat, lenPlaceholder: nat, r: seq<char>, n: nat)
    requires pos + lenPlaceholder + n <= buffer.Length && pos + |r| + n <= buffer.Length
    modifies buffer
    ensures buffer[..] == Spliced(old(buffer[..]), pos, lenPlaceholder, r, n)
  {
    CopyInto(buffer, pos + |r|, buffer[pos + lenPlaceholder..pos + lenPlaceholder + n]);
    CopyInto(buffer, pos, r);
  }

  /** `replace_placeholder(buffer, buffer_size, placeholder, replacement)`
      with `buffer_size` the allocation of `buffer`. */
  method ReplacePlaceholder(buffer: array<char>, placeholder: seq<char>, replacement: seq<char>)
    requires Terminated(buffer[..])
    modifies buffer
    ensures buffer[..] == EditedBuffer(old(buffer[..]), placeholder, replacement)
    ensures NUL !in replacement ==>
              Terminated(buffer[..]) &&
              CString(buffer[..]) == Substitute(CString(old(buffer[..])), buffer.Length, placeholder, replacement)
  {
    ghost var b := buffer[..];
    var s := CString(buffer[..]);
    var found := Find(s, placeholder);
    if found.Some? {
      var pos := found.value;
      var lenBefore := pos;
      var lenPlaceholder := |placeholder|;
      var lenReplacement := |replacement|;
      var lenAfter := |s| - pos - lenPlaceholder;
      if lenBefore + lenReplacement + lenAfter < buffer.Length {
        var moveLen := lenAfter + 1;
        Splice(buffer, pos, lenPlaceholder, replacement, moveLen);
      }
    }
    if NUL !in replacement {
      EditedBufferHoldsSubstitute(b, placeholder, replacement);
    }
  }

  /** The two UTF-8 bytes of the degree sign, then `C`. */
  const DegreesCelsius: seq<char> := ['Â', '°', 'C']

  /** A temperature as the page shows it: "N/A" for the error code, otherwise
      the `%.2f` rendering (`format`) followed by the degree sign and `C`. */
  function TemperatureString(t: real, format: real -> seq<char>): (r: seq<char>)
    ensures (r == "N/A") <==> (t == TemperatureErrorCode)
    ensures t != TemperatureErrorCode ==> r == format(t) + DegreesCelsius
  {
    if t == TemperatureErrorCode then "N/A"
    else
      var r := format(t) + DegreesCelsius;
      assert r[|r| - 1] == 'C' != "N/A"[2];
      r
  }

  /** The decimal digit for `0 <= d < 10`. */
  function Digit(d: nat): (c: char)
    requires d < 10
    ensures '0' <= c <= '9'
  {
    ('0' as int + d) as char
  }

  function DigitValue(c: char): nat {
    if '0' <= c <= '9' then (c as int - '0' as int) as nat else 0
  }

  /** `%d` of a natural number: its decimal digits, most significant first. */
  function Digits(n: nat): (r: seq<char>)
    ensures r != [] && forall i :: 0 <= i < |r| ==> '0' <= r[i] <= '9'
    ensures |r| > 1 ==> r[0] != '0'
  {
    if n < 10 then [Digit(n)] else Digits(n / 10) + [Digit(n % 10)]
  }

  /** Reading decimal digits back. */
  function DigitsValue(s: seq<char>): nat {
    if s == [] then 0 else DigitsValue(s[..|s| - 1]) * 10 + DigitValue(s[|s| - 1])
  }

  lemma {:induction false} DigitsRoundTrip(n: nat)
    ensures DigitsValue(Digits(n)) == n
  {
    var r := Digits(n);
    if n >= 10 {
      DigitsRoundTrip(n / 10);
      assert r[..|r| - 1] == Digits(n / 10);
      assert DigitValue(r[|r| - 1]) == n % 10;
    } else {
      assert DigitValue(r[0]) == n;
    }
  }

  /** `sprintf("%d", n)`. */
  function DecimalString(n: int): (r: seq<char>)
    ensures r != [] && (r[0] == '-' <==> n < 0)
  {
    if n < 0 then "-" + Digits(-n) else Digits(n)
  }

  /** Reading `sprintf("%d", n)` back gives `n`. */
  function DecimalValue(s: seq<char>): int {
    if s != [] && s[0] == '-' then -(DigitsValue(s[1..]) as int) else DigitsValue(s)
  }

  lemma DecimalRoundTrip(n: int)
    ensures DecimalValue(DecimalString(n)) == n
  {
    if n < 0 {
      DigitsRoundTrip(-n);
      assert DecimalString(n)[1..] == Digits(-n);
    } else {
      DigitsRoundTrip(n);
    }
  }

  const InsidePlaceholder: seq<char> := "{INSIDE_TEMPERATURE}"
  const OutsidePlaceholder: seq<char> := "{OUTSIDE_TEMPERATURE}"
  const LightLevelPlaceholder: seq<char> := "{LIGHT_LEVEL}"
  const LightLevelsAmountPlaceholder: seq<char> := "{LIGHT_LEVELS_AMOUNT}"
  const FirmwareVersionPlaceholder: seq<char> := "{FIRMWARE_VERSION}"
  const LogsPlaceholder: seq<char> := "{LOGS}"

  /** The extra room `get_index_page` gives the response beyond the template and the log buffer. */
  const ResponseSlack: nat := 500

  /** What the page shows, read from the firmware's globals; the firmware
      version and the log buffer are C strings in their own buffers. */
  datatype Globals = Globals(
    insideTemperature: real,
    outsideTemperature: real,
    lightLevelIndex: int,
    firmwareVersion: seq<char>,
    logBuffer: seq<char>)

  /** The response size `get_index_page` allocates. */
  function ResponseSize(template: seq<char>, logBufferSize: nat): nat {
    |template| + ResponseSlack + logBufferSize
  }

  /** The six substitutions of `get_index_page`, in its order, each on the
      result of the one before, in a buffer of `size` bytes. */
  function FillPage(s: seq<char>, size: nat, inside: seq<char>, outside: seq<char>, lightLevel: seq<char>,
                    lightLevelsAmount: seq<char>, firmwareVersion: seq<char>, logs: seq<char>): (r: seq<char>)
    ensures r == s || |r| < size
  {
    var s1 := Substitute(s, size, InsidePlaceholder, inside);
    var s2 := Substitute(s1, size, OutsidePlaceholder, outside);
    var s3 := Substitute(s2, size, LightLevelPlaceholder, lightLevel);
    var s4 := Substitute(s3, size, LightLevelsAmountPlaceholder, lightLevelsAmount);
    var s5 := Substitute(s4, size, FirmwareVersionPlaceholder, firmwareVersion);
    Substitute(s5, size, LogsPlaceholder, logs)
  }

  /** The page `get_index_page` sends: the template's string with the six
      placeholders filled; every replacement is read as a C string. */
  function RenderedPage(template: seq<char>, logBufferSize: nat, g: Globals, lightLevelsAmount: int,
                        format: real -> seq<char>): (r: seq<char>)
    ensures |r| < ResponseSize(template, logBufferSize)
  {
    FillPage(CString(template), ResponseSize(template, logBufferSize),
             CString(TemperatureString(g.insideTemperature, format)),
             CString(TemperatureString(g.outsideTemperature, format)),
             DecimalString(g.lightLevelIndex + 1), DecimalString(lightLevelsAmount),
             CString(g.firmwareVersion), CString(g.logBuffer))
  }

  lemma DecimalNulFree(n: int)
    ensures NUL !in DecimalString(n)
  {
    var r := DecimalString(n);
    forall i | 0 <= i < |r| ensures r[i] != NUL {
      if n < 0 && i > 0 {
        assert r[i] == Digits(-n)[i - 1];
      }
    }
  }

  /** The page always fits its response buffer with the terminator, and holds no NUL. */
  lemma RenderedPageFits(template: seq<char>, logBufferSize: nat, g: Globals, lightLevelsAmount: int,
                         format: real -> seq<char>)
    ensures var page := RenderedPage(template, logBufferSize, g, lightLevelsAmount, format);
            |page| < ResponseSize(template, logBufferSize) && NUL !in page
  {
    var size := ResponseSize(template, logBufferSize);
    var s0 := CString(template);
    var r1 := CString(TemperatureString(g.insideTemperature, format));
    var r2 := CString(TemperatureString(g.outsideTemperature, format));
    var r3 := DecimalString(g.lightLevelIndex + 1);
    var r4 := DecimalString(lightLevelsAmount);
    var r5 := CString(g.firmwareVersion);
    var r6 := CString(g.logBuffer);
    DecimalNulFree(g.lightLevelIndex + 1);
    DecimalNulFree(lightLevelsAmount);
    var s1 := Substitute(s0, size, InsidePlaceholder, r1);
    SubstituteKeepsBounds(s0, size, InsidePlaceholder, r1);
    var s2 := Substitute(s1, size, OutsidePlaceholder, r2);
    SubstituteKeepsBounds(s1, size, OutsidePlaceholder, r2);
    var s3 := Substitute(s2, size, LightLevelPlaceholder, r3);
    SubstituteKeepsBounds(s2, size, LightLevelPlaceholder, r3);
    var s4 := Substitute(s3, size, LightLevelsAmountPlaceholder, r4);
    SubstituteKeepsBounds(s3, size, LightLevelsAmountPlaceholder, r4);
    var s5 := Substitute(s4, size, FirmwareVersionPlaceholder, r5);
    SubstituteKeepsBounds(s4, size, FirmwareVersionPlaceholder, r5);
    SubstituteKeepsBounds(s5, size, LogsPlaceholder, r6);
  }

  /** `s` holds none of the six placeholders. */
  predicate NoPlaceholders(s: seq<char>) {
    forall j :: 0 <= j <= |s| ==>
      && !OccursAt(s, InsidePlaceholder, j) && !OccursAt(s, OutsidePlaceholder, j)
      && !OccursAt(s, LightLevelPlaceholder, j) && !OccursAt(s, LightLevelsAmountPlaceholder, j)
      && !OccursAt(s, FirmwareVersionPlaceholder, j) && !OccursAt(s, LogsPlaceholder, j)
  }

  /** A template with none of the six placeholders is sent verbatim (up to its first NUL). */
  lemma NoPlaceholdersVerbatim(template: seq<char>, logBufferSize: nat, g: Globals,
                               lightLevelsAmount: int, format: real -> seq<char>)
    requires NoPlaceholders(CString(template))
    ensures RenderedPage(template, logBufferSize, g, lightLevelsAmount, format) == CString(template)
  {
    var size := ResponseSize(template, logBufferSize);
    var s := CString(template);
    SubstituteAbsent(s, size, InsidePlaceholder, CString(TemperatureString(g.insideTemperature, format)));
    SubstituteAbsent(s, size, OutsidePlaceholder, CString(TemperatureString(g.outsideTemperature, format)));
    SubstituteAbsent(s, size, LightLevelPlaceholder, DecimalString(g.lightLevelIndex + 1));
    SubstituteAbsent(s, size, LightLevelsAmountPlaceholder, DecimalString(lightLevelsAmount));
    SubstituteAbsent(s, size, FirmwareVersionPlaceholder, CString(g.firmwareVersion));
    SubstituteAbsent(s, size, LogsPlaceholder, CString(g.logBuffer));
  }

  /** `%d` writes no opening brace. */
  lemma DecimalBraceFree(n: int)
    ensures '{' !in DecimalString(n)
  {
    var r := DecimalString(n);
    forall i | 0 <= i < |r| ensures r[i] != '{' {
      if n < 0 && i > 0 {
        assert r[i] == Digits(-n)[i - 1];
      }
    }
  }

  /** Every placeholder opens with a brace, so text without one holds none. */
  lemma BraceFreeHoldsNone(s: seq<char>, p: seq<char>)
    requires '{' !in s && p != [] && p[0] == '{'
    ensures forall j :: 0 <= j <= |s| ==> !OccursAt(s, p, j)
  {
    forall j | 0 <= j <= |s| ensures !OccursAt(s, p, j) {
      if j + |p| <= |s| {
        assert s[j..j + |p|][0] == s[j];
      }
    }
  }

  /** In `pre + "{LIGHT_LEVEL}" + post` with no other brace, a placeholder
      that does not go on with `L` does not occur. */
  lemma OnlyLightLevelOpens(pre: seq<char>, post: seq<char>, p: seq<char>)
    requires '{' !in pre && '{' !in post && |p| >= 2 && p[0] == '{' && p[1] != 'L'
    ensures forall j :: 0 <= j <= |pre + LightLevelPlaceholder + post| ==>
              !OccursAt(pre + LightLevelPlaceholder + post, p, j)
  {
    var t := pre + LightLevelPlaceholder + post;
    forall j | 0 <= j <= |t| ensures !OccursAt(t, p, j) {
      if j + |p| <= |t| {
        assert t[j] != '{' || t[j + 1] == 'L' by {
          if j < |pre| {
            assert t[j] == pre[j];
          } else if j < |pre| + |LightLevelPlaceholder| {
            assert t[j] == LightLevelPlaceholder[j - |pre|];
            assert j == |pre| ==> t[j + 1] == LightLevelPlaceholder[1];
          } else {
            assert t[j] == post[j - |pre| - |LightLevelPlaceholder|];
          }
        }
        assert t[j..j + |p|][0] == t[j] && t[j..j + |p|][1] == t[j + 1];
      }
    }
  }

  /** In `pre + "{LIGHT_LEVEL}" + post` with no brace in `pre`, the first
      `{LIGHT_LEVEL}` is the one after `pre`. */
  lemma LightLevelFirstAfter(pre: seq<char>, post: seq<char>)
    requires '{' !in pre
    ensures var t := pre + LightLevelPlaceholder + post;
            OccursAt(t, LightLevelPlaceholder, |pre|) && forall j :: 0 <= j < |pre| ==> !OccursAt(t, LightLevelPlaceholder, j)
  {
    var t := pre + LightLevelPlaceholder + post;
    assert t[|pre|..|pre| + |LightLevelPlaceholder|] == LightLevelPlaceholder;
    forall j | 0 <= j < |pre| ensures !OccursAt(t, LightLevelPlaceholder, j) {
      assert t[j] == pre[j];
      if j + |LightLevelPlaceholder| <= |t| {
        assert t[j..j + |LightLevelPlaceholder|][0] == t[j];
      }
    }
  }

  /** The light level is shown one-based: a template whose only brace opens
      one `{LIGHT_LEVEL}` is sent with `global_light_level_index + 1` in its
      place, provided the page fits the response buffer. */
  lemma LightLevelShownOneBased(pre: seq<char>, post: seq<char>, logBufferSize: nat, g: Globals,
                                lightLevelsAmount: int, format: real -> seq<char>)
    requires '{' !in pre && '{' !in post && NUL !in pre && NUL !in post
    requires |DecimalString(g.lightLevelIndex + 1)| < |LightLevelPlaceholder| + ResponseSlack + logBufferSize
    ensures RenderedPage(pre + LightLevelPlaceholder + post, logBufferSize, g, lightLevelsAmount, format)
            == pre + DecimalString(g.lightLevelIndex + 1) + post
  {
    var t := pre + LightLevelPlaceholder + post;
    var size := ResponseSize(t, logBufferSize);
    var d := DecimalString(g.lightLevelIndex + 1);
    assert NUL !in t;
    OnlyLightLevelOpens(pre, post, InsidePlaceholder);
    SubstituteAbsent(t, size, InsidePlaceholder, CString(TemperatureString(g.insideTemperature, format)));
    OnlyLightLevelOpens(pre, post, OutsidePlaceholder);
    SubstituteAbsent(t, size, OutsidePlaceholder, CString(TemperatureString(g.outsideTemperature, format)));
    LightLevelReplaced(pre, post, size, d);
    DecimalBraceFree(g.lightLevelIndex + 1);
    assert '{' !in pre + d + post;
    RenderedThroughLightLevel(t, logBufferSize, g, lightLevelsAmount, format, pre + d + post);
  }

  /** A NUL-free template that the two temperatures leave as it is, and that
      the light level turns into brace-free text, is sent as that text. */
  lemma RenderedThroughLightLevel(template: seq<char>, logBufferSize: nat, g: Globals, lightLevelsAmount: int,
                                  format: real -> seq<char>, shown: seq<char>)
    requires NUL !in template && '{' !in shown
    requires var size := ResponseSize(template, logBufferSize);
             && Substitute(template, size, InsidePlaceholder, CString(TemperatureString(g.insideTemperature, format))) == template
             && Substitute(template, size, OutsidePlaceholder, CString(TemperatureString(g.outsideTemperature, format))) == template
             && Substitute(template, size, LightLevelPlaceholder, DecimalString(g.lightLevelIndex + 1)) == shown
    ensures RenderedPage(template, logBufferSize, g, lightLevelsAmount, format) == shown
  {
    var size := ResponseSize(template, logBufferSize);
    CStringOfNulFree(template);
    RenderedPageFilled(template, logBufferSize, g, lightLevelsAmount, format, template, size);
    FilledWithoutBraces(shown, size, DecimalString(lightLevelsAmount), CString(g.firmwareVersion), CString(g.logBuffer));
    FillPageSteps(template, size, CString(TemperatureString(g.insideTemperature, format)),
                  CString(TemperatureString(g.outsideTemperature, format)), DecimalString(g.lightLevelIndex + 1),
                  DecimalString(lightLevelsAmount), CString(g.firmwareVersion), CString(g.logBuffer), shown);
  }

  /** The one `{LIGHT_LEVEL}` after brace-free `pre` is replaced by `d`. */
  lemma LightLevelReplaced(pre: seq<char>, post: seq<char>, size: nat, d: seq<char>)
    requires '{' !in pre && |pre| + |d| + |post| < size
    ensures Substitute(pre + LightLevelPlaceholder + post, size, LightLevelPlaceholder, d) == pre + d + post
  {
    var t := pre + LightLevelPlaceholder + post;
    LightLevelFirstAfter(pre, post);
    SubstituteFirst(t, size, LightLevelPlaceholder, d, |pre|);
    assert t[..|pre|] == pre && t[|pre| + |LightLevelPlaceholder|..] == post;
  }

  /** Brace-free text comes through the last three substitutions unchanged. */
  lemma FilledWithoutBraces(s: seq<char>, size: nat, r4: seq<char>, r5: seq<char>, r6: seq<char>)
    requires '{' !in s
    ensures Substitute(s, size, LightLevelsAmountPlaceholder, r4) == s
    ensures Substitute(s, size, FirmwareVersionPlaceholder, r5) == s
    ensures Substitute(s, size, LogsPlaceholder, r6) == s
  {
    BraceFreeHoldsNone(s, LightLevelsAmountPlaceholder);
    SubstituteAbsent(s, size, LightLevelsAmountPlaceholder, r4);
    BraceFreeHoldsNone(s, FirmwareVersionPlaceholder);
    SubstituteAbsent(s, size, FirmwareVersionPlaceholder, r5);
    BraceFreeHoldsNone(s, LogsPlaceholder);
    SubstituteAbsent(s, size, LogsPlaceholder, r6);
  }

  /** `FillPage` when the first two substitutions keep the string, the third gives `shown`, and the rest keep that. */
  lemma FillPageSteps(s: seq<char>, size: nat, r1: seq<char>, r2: seq<char>, r3: seq<char>, r4: seq<char>,
                      r5: seq<char>, r6: seq<char>, shown: seq<char>)
    requires Substitute(s, size, InsidePlaceholder, r1) == s && Substitute(s, size, OutsidePlaceholder, r2) == s
    requires Substitute(s, size, LightLevelPlaceholder, r3) == shown
    requires Substitute(shown, size, LightLevelsAmountPlaceholder, r4) == shown
    requires Substitute(shown, size, FirmwareVersionPlaceholder, r5) == shown
    requires Substitute(shown, size, LogsPlaceholder, r6) == shown
    ensures FillPage(s, size, r1, r2, r3, r4, r5, r6) == shown
  {
  }

  /** The template copied with a terminator holds the template's string. */
  lemma TemplateString(template: seq<char>)
    ensures CString(template + [NUL]) == CString(template)
  {
    CStringConcat(template, [NUL]);
    CStringPrefix(template);
    assert CString([NUL]) == [];
  }

  /** The page is the template's string, filled in a response buffer of the allocated size. */
  lemma RenderedPageFilled(template: seq<char>, logBufferSize: nat, g: Globals, lightLevelsAmount: int,
                           format: real -> seq<char>, s: seq<char>, size: nat)
    requires s == CString(template) && size == ResponseSize(template, logBufferSize)
    ensures RenderedPage(template, logBufferSize, g, lightLevelsAmount, format)
            == FillPage(s, size, CString(TemperatureString(g.insideTemperature, format)),
                        CString(TemperatureString(g.outsideTemperature, format)),
                        DecimalString(g.lightLevelIndex + 1), DecimalString(lightLevelsAmount),
                        CString(g.firmwareVersion), CString(g.logBuffer))
  {
    assert RenderedPage(template, logBufferSize, g, lightLevelsAmount, format)
        == FillPage(CString(template), ResponseSize(template, logBufferSize),
                    CString(TemperatureString(g.insideTemperature, format)),
                    CString(TemperatureString(g.outsideTemperature, format)),
                    DecimalString(g.lightLevelIndex + 1), DecimalString(lightLevelsAmount),
                    CString(g.firmwareVersion), CString(g.logBuffer));
  }

  /** The six `replace_placeholder` calls of `get_index_page` on the response buffer. */
  method FillPlaceholders(buffer: array<char>, inside: seq<char>, outside: seq<char>, lightLevel: seq<char>,
                          lightLevelsAmount: seq<char>, firmwareVersion: seq<char>, logs: seq<char>)
    requires Terminated(buffer[..])
    requires NUL !in inside && NUL !in outside && NUL !in lightLevel
    requires NUL !in lightLevelsAmount && NUL !in firmwareVersion && NUL !in logs
    modifies buffer
    ensures Terminated(buffer[..])
    ensures CString(buffer[..]) == FillPage(CString(old(buffer[..])), buffer.Length, inside, outside, lightLevel,
                                            lightLevelsAmount, firmwareVersion, logs)
  {
    ReplacePlaceholder(buffer, InsidePlaceholder, inside);
    ReplacePlaceholder(buffer, OutsidePlaceholder, outside);
    ReplacePlaceholder(buffer, LightLevelPlaceholder, lightLevel);
    ReplacePlaceholder(buffer, LightLevelsAmountPlaceholder, lightLevelsAmount);
    ReplacePlaceholder(buffer, FirmwareVersionPlaceholder, firmwareVersion);
    ReplacePlaceholder(buffer, LogsPlaceholder, logs);
  }

  /** What `get_index_page` does: fail with ESP_ERR_NO_MEM, or send a page. */
  datatype PageResult = NoMem | Sent(page: seq<char>)

  /** `get_index_page`.  `htmlAllocOk` and `responseAllocOk` are the outcomes
      of its two `malloc`s, `fill` what fresh memory holds, `format` the
      `%.2f` rendering of a temperature. */
  method GetIndexPage(template: seq<char>, logBufferSize: nat, g: Globals, lightLevelsAmount: int,
                      format: real -> seq<char>, htmlAllocOk: bool, responseAllocOk: bool, fill: char)
    returns (result: PageResult)
    ensures (!htmlAllocOk || !responseAllocOk) <==> result == NoMem
    ensures htmlAllocOk && responseAllocOk ==>
              result == Sent(RenderedPage(template, logBufferSize, g, lightLevelsAmount, format))
  {
    if !htmlAllocOk {
      return NoMem;
    }
    var htmlPage := new char[|template| + 1](_ => fill);
    CopyInto(htmlPage, 0, template);
    htmlPage[|template|] := NUL;
    var responseSize := |template| + ResponseSlack + logBufferSize;
    if !responseAllocOk {
      return NoMem;
    }
    var responseData := new char[responseSize](_ => fill);

    assert htmlPage[..] == template + [NUL];
    TemplateString(template);
    StrCpy(responseData, htmlPage);

    var inside := CString(TemperatureString(g.insideTemperature, format));
    var outside := CString(TemperatureString(g.outsideTemperature, format));
    var lightLevel := DecimalString(g.lightLevelIndex + 1);
    var lightLevelsAmountString := DecimalString(lightLevelsAmount);
    DecimalNulFree(g.lightLevelIndex + 1);
    DecimalNulFree(lightLevelsAmount);

    ghost var s := CString(responseData[..]);
    assert s == CString(template);
    FillPlaceholders(responseData, inside, outside, lightLevel, lightLevelsAmountString,
                     CString(g.firmwareVersion), CString(g.logBuffer));
    RenderedPageFilled(template, logBufferSize, g, lightLevelsAmount, format, s, responseSize);

    // httpd_resp_send(req, response_data, HTTPD_RESP_USE_STRLEN)
    result := Sent(CString(responseData[..]));
  }
}
