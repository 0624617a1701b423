/** HTTP framing and request parsing over the bytes read so far. */
module HttpParser {
  import opened CString
  import opened Decimal

  const HEAD_END: string := "\r\n\r\n"
  const LINE_END: string := "\r\n"
  const LENGTH_FIELD: string := "Content-Length:"
  const SIZE_MODULUS: nat := 0x1_0000_0000_0000_0000

  /** `Throws` stands for the exception of a length that cannot be read. */
  datatype Verdict = NeedMoreData | Complete | Throws

  // ----- searching -----

  predicate At(s: string, pat: string, i: nat) {
    i + |pat| <= |s| && s[i..i + |pat|] == pat
  }

  /** The first occurrence from a position on. */
  function Find(s: string, pat: string, from: nat): (r: Option<nat>)
    requires pat != "" && from <= |s|
    ensures r.Some? ==> from <= r.value && At(s, pat, r.value)
    ensures r.Some? ==> forall j :: from <= j < r.value ==> !At(s, pat, j)
    ensures r.None? ==> forall j :: from <= j ==> !At(s, pat, j)
    decreases |s| - from
  {
    if |s| < from + |pat| then None else if At(s, pat, from) then Some(from) else Find(s, pat, from + 1)
  }

  lemma FirstAt(s: string, pat: string, from: nat, i: nat)
    requires pat != "" && from <= i && At(s, pat, i)
    requires forall j :: from <= j < i ==> !At(s, pat, j)
    ensures Find(s, pat, from) == Some(i)
  {
  }

  /** One different character is enough. */
  lemma Mismatch(s: string, pat: string, j: nat, i: nat)
    requires i < |pat| && j + i < |s| && s[j + i] != pat[i]
    ensures !At(s, pat, j)
  {
    if j + |pat| <= |s| {
      assert s[j..j + |pat|][i] == s[j + i];
    }
  }

  predicate IsBlank(c: char) {
    c == ' ' || c == '\t'
  }

  /** Blanks taken off at both ends; a text of blanks only becomes empty. */
  function TrimLeft(s: string): string {
    if s != "" && IsBlank(s[0]) then TrimLeft(s[1..]) else s
  }

  function TrimRight(s: string): string {
    if s != "" && IsBlank(s[|s| - 1]) then TrimRight(s[..|s| - 1]) else s
  }

  function Trim(s: string): string {
    TrimRight(TrimLeft(s))
  }

  predicate IsSpace(c: char) {
    c == ' ' || '\t' <= c <= '\r'
  }

  function SkipSpace(s: string): string {
    if s != "" && IsSpace(s[0]) then SkipSpace(s[1..]) else s
  }

  function Digits(s: string): (d: string)
    ensures d <= s && forall i :: 0 <= i < |d| ==> IsDigit(d[i])
    ensures |d| < |s| ==> !IsDigit(s[|d|])
  {
    if s != "" && IsDigit(s[0]) then [s[0]] + Digits(s[1..]) else ""
  }

  /** `std::stoul`: white space, a sign, digits; no value when there are none or they do not fit. */
  function Stoul(s: string): (r: Option<nat>)
    ensures r.Some? ==> r.value < SIZE_MODULUS
  {
    var t := SkipSpace(s);
    var negative := t != "" && t[0] == '-';
    var d := Digits(if t != "" && (t[0] == '-' || t[0] == '+') then t[1..] else t);
    if d == "" || SIZE_MODULUS <= NumberOf(d) then None
    else Some(if negative then (SIZE_MODULUS - NumberOf(d)) % SIZE_MODULUS else NumberOf(d))
  }

  /** A sum as `size_t` holds it. */
  function Wrapped(n: nat): (r: nat)
    ensures r < SIZE_MODULUS && (n < SIZE_MODULUS ==> r == n) && (n - r) % SIZE_MODULUS == 0
  {
    n % SIZE_MODULUS
  }

  // ----- framing -----

  lemma FieldHasNoLineEnd(s: string, cl: nat, end: nat)
    requires At(s, LENGTH_FIELD, cl) && At(s, LINE_END, end) && cl <= end
    ensures cl + |LENGTH_FIELD| <= end
  {
    assert s[end] == s[end..end + 2][0] == '\r';
    forall j | cl <= j < cl + |LENGTH_FIELD| ensures s[j] != '\r' {
      assert s[j] == s[cl..cl + |LENGTH_FIELD|][j - cl] == LENGTH_FIELD[j - cl];
    }
  }

  /** What a buffer says about its message: nothing yet, an unreadable length, or how many bytes it takes.
      Without a length field in it, the message ends with its head. */
  datatype Frame = NoHead | BadLength | Total(bytes: nat)

  function FrameOf(buffer: string): Frame {
    match Find(buffer, HEAD_END, 0)
    case None => NoHead
    case Some(headersEnd) =>
      match Find(buffer, LENGTH_FIELD, 0)
      case None => Total(headersEnd + 4)
      case Some(cl) =>
        if headersEnd <= cl then Total(headersEnd + 4) else
          match Find(buffer, LINE_END, cl)
          case None => Total(headersEnd + 4)
          case Some(end) =>
            FieldHasNoLineEnd(buffer, cl, end);
            FrameWith(headersEnd, buffer[cl + |LENGTH_FIELD|..end])
  }

  function FrameWith(headersEnd: nat, value: string): Frame {
    match Stoul(Trim(value))
    case None => BadLength
    case Some(n) => Total(Wrapped(headersEnd + 4 + n))
  }

  /** `is_complete_message`: its searches find the frame, and the bytes present are compared with it. */
  function IsCompleteMessage(buffer: string): Verdict {
    if buffer == "" then NeedMoreData else
      match FrameOf(buffer)
      case NoHead => NeedMoreData
      case BadLength => Throws
      case Total(bytes) => if bytes <= |buffer| then Complete else NeedMoreData
  }

  /** More bytes behind a text do not change the matches that lie inside it. */
  lemma AtPrefix(s: string, more: string, pat: string, i: nat)
    requires i + |pat| <= |s|
    ensures At(s + more, pat, i) <==> At(s, pat, i)
  {
    assert (s + more)[i..i + |pat|] == s[i..i + |pat|];
  }

  lemma FindPrefix(s: string, more: string, pat: string, from: nat)
    requires pat != "" && from <= |s| && Find(s, pat, from).Some?
    ensures Find(s + more, pat, from) == Find(s, pat, from)
  {
    var i := Find(s, pat, from).value;
    forall j | from <= j <= i ensures At(s + more, pat, j) <==> At(s, pat, j) {
      AtPrefix(s, more, pat, j);
    }
    var r := Find(s + more, pat, from);
    assert r.Some? && r.value == i;
  }

  /** A length field that begins before the end of the head lies inside the bytes that hold the head. */
  lemma FieldInsideHead(s: string, cl: nat, headersEnd: nat)
    requires At(s, LENGTH_FIELD, cl) && At(s, HEAD_END, headersEnd) && cl < headersEnd
    ensures cl + |LENGTH_FIELD| <= headersEnd
  {
    assert s[headersEnd..headersEnd + 2] == s[headersEnd..headersEnd + 4][..2] == LINE_END;
    FieldHasNoLineEnd(s, cl, headersEnd);
  }

  /** Appended bytes neither move a length field of the head nor create one. */
  lemma FieldIsStable(buffer: string, more: string, headersEnd: nat)
    requires At(buffer, HEAD_END, headersEnd)
    ensures var f, f' := Find(buffer, LENGTH_FIELD, 0), Find(buffer + more, LENGTH_FIELD, 0);
            (f.Some? ==> f' == f) && (f'.Some? && f'.value < headersEnd ==> f' == f)
  {
    var f, f' := Find(buffer, LENGTH_FIELD, 0), Find(buffer + more, LENGTH_FIELD, 0);
    if f.Some? {
      FindPrefix(buffer, more, LENGTH_FIELD, 0);
    }
    if f'.Some? && f'.value < headersEnd {
      AtPrefix(buffer, more, HEAD_END, headersEnd);
      FieldInsideHead(buffer + more, f'.value, headersEnd);
      AtPrefix(buffer, more, LENGTH_FIELD, f'.value);
    }
  }

  lemma ValueIsStable(buffer: string, more: string, headersEnd: nat, cl: nat)
    requires At(buffer, HEAD_END, headersEnd) && At(buffer, LENGTH_FIELD, cl) && cl < headersEnd
    ensures var end := Find(buffer, LINE_END, cl);
            end.Some? && Find(buffer + more, LINE_END, cl) == end
            && cl + |LENGTH_FIELD| <= end.value
            && (buffer + more)[cl + |LENGTH_FIELD|..end.value] == buffer[cl + |LENGTH_FIELD|..end.value]
  {
    HeadEndsALine(buffer, headersEnd);
    var end := Find(buffer, LINE_END, cl);
    assert end.Some?;
    FindPrefix(buffer, more, LINE_END, cl);
    FieldHasNoLineEnd(buffer, cl, end.value);
  }

  /** Once the head is there, appended bytes change nothing about the frame. */
  lemma {:induction false} FrameIsStable(buffer: string, more: string)
    requires FrameOf(buffer) != NoHead
    ensures FrameOf(buffer + more) == FrameOf(buffer)
  {
    hide Stoul, Trim, At;
    var headersEnd := Find(buffer, HEAD_END, 0).value;
    FindPrefix(buffer, more, HEAD_END, 0);
    FieldIsStable(buffer, more, headersEnd);
    var field := Find(buffer, LENGTH_FIELD, 0);
    if field.Some? && field.value < headersEnd {
      ValueIsStable(buffer, more, headersEnd, field.value);
    }
  }

  lemma HeadEndsALine(s: string, i: nat)
    requires At(s, HEAD_END, i)
    ensures At(s, LINE_END, i)
  {
    assert s[i..i + 2] == s[i..i + 4][..2] == LINE_END;
  }

  /** Completeness is monotone: a complete buffer stays complete, whatever arrives next. */
  lemma {:induction false} CompleteStaysComplete(buffer: string, more: string)
    requires IsCompleteMessage(buffer) != NeedMoreData
    ensures IsCompleteMessage(buffer + more) == IsCompleteMessage(buffer)
  {
    FrameIsStable(buffer, more);
  }

  // ----- framing is exact -----

  /** A head: its first empty line is its end. */
  predicate IsHead(head: string) {
    Find(head, HEAD_END, 0) == Some(|head| - |HEAD_END|)
  }

  ghost predicate AllBlank(s: string) {
    forall i :: 0 <= i < |s| ==> IsBlank(s[i])
  }

  predicate IsNumeral(s: string) {
    s != "" && forall i :: 0 <= i < |s| ==> IsDigit(s[i])
  }

  /** The head's first length field gives a decimal numeral, perhaps with blanks around it. */
  ghost predicate DeclaresLength(head: string, before: string, left: string, numeral: string, right: string,
                                 after: string)
  {
    head == before + LENGTH_FIELD + left + numeral + right + LINE_END + after
    && Find(head, LENGTH_FIELD, 0) == Some(|before|)
    && AllBlank(left) && AllBlank(right) && IsNumeral(numeral)
  }

  lemma {:induction false} TrimBlanks(left: string, numeral: string, right: string)
    requires AllBlank(left) && AllBlank(right) && IsNumeral(numeral)
    ensures Trim(left + numeral + right) == numeral
    decreases |left|
  {
    var s := left + numeral + right;
    if left != "" {
      TrimBlanks(left[1..], numeral, right);
      assert s[0] == left[0] && s[1..] == left[1..] + numeral + right;
    } else {
      assert s[0] == numeral[0] && !IsBlank(s[0]);
      TrimRightBlanks(numeral, right);
      assert s == numeral + right;
    }
  }

  lemma {:induction false} TrimRightBlanks(numeral: string, right: string)
    requires AllBlank(right) && IsNumeral(numeral)
    ensures TrimRight(numeral + right) == numeral
    decreases |right|
  {
    var s := numeral + right;
    if right != "" {
      TrimRightBlanks(numeral, right[..|right| - 1]);
      assert s[|s| - 1] == right[|right| - 1] && s[..|s| - 1] == numeral + right[..|right| - 1];
    } else {
      assert s == numeral && !IsBlank(s[|s| - 1]);
    }
  }

  lemma {:induction false} DigitsOfNumeral(s: string)
    requires forall i :: 0 <= i < |s| ==> IsDigit(s[i])
    ensures Digits(s) == s
  {
    if s != "" {
      DigitsOfNumeral(s[1..]);
    }
  }

  lemma StoulOfNumeral(s: string)
    requires IsNumeral(s)
    ensures Stoul(s) == if NumberOf(s) < SIZE_MODULUS then Some(NumberOf(s)) else None
  {
    assert IsDigit(s[0]) && SkipSpace(s) == s;
    DigitsOfNumeral(s);
  }

  lemma {:induction false} SkipsSpaces(space: string, rest: string)
    requires (forall i :: 0 <= i < |space| ==> IsSpace(space[i])) && (rest != "" ==> !IsSpace(rest[0]))
    ensures SkipSpace(space + rest) == rest
  {
    if space != "" {
      SkipsSpaces(space[1..], rest);
      assert (space + rest)[1..] == space[1..] + rest;
    } else {
      assert space + rest == rest;
    }
  }

  lemma {:induction false} DigitsUpTo(digits: string, tail: string)
    requires (forall i :: 0 <= i < |digits| ==> IsDigit(digits[i])) && (tail != "" ==> !IsDigit(tail[0]))
    ensures Digits(digits + tail) == digits
  {
    if digits != "" {
      DigitsUpTo(digits[1..], tail);
      assert (digits + tail)[1..] == digits[1..] + tail;
    } else {
      assert digits + tail == tail;
    }
  }

  /** What any text means to `stoul`: white space, at most one sign, digits, and whatever follows them. */
  lemma {:induction false} StoulMeaning(space: string, sign: string, digits: string, tail: string)
    requires (forall i :: 0 <= i < |space| ==> IsSpace(space[i])) && sign in ["", "+", "-"]
    requires (forall i :: 0 <= i < |digits| ==> IsDigit(digits[i])) && (tail != "" ==> !IsDigit(tail[0]))
    requires sign == "" && digits == "" && tail != "" ==> !IsSpace(tail[0]) && tail[0] != '+' && tail[0] != '-'
    ensures Stoul(space + (sign + (digits + tail))) ==
            if digits == "" || SIZE_MODULUS <= NumberOf(digits) then None
            else if sign == "-" && NumberOf(digits) != 0 then Some(SIZE_MODULUS - NumberOf(digits))
            else Some(NumberOf(digits))
  {
    hide NumberOf, SkipSpace, Digits, Stoul;
    var rest := digits + tail;
    assert digits != "" ==> rest[0] == digits[0];
    assert digits == "" ==> rest == tail;
    SignInFront(sign, rest);
    SkipsSpaces(space, sign + rest);
    DigitsUpTo(digits, tail);
    StoulBehindSpace(space + (sign + rest), sign, rest);
    WrapsBelow(NumberOf(digits));
  }

  lemma SignInFront(sign: string, rest: string)
    requires sign in ["", "+", "-"]
    ensures sign == "" ==> sign + rest == rest
    ensures sign != "" ==> (sign + rest)[0] == sign[0] && (sign + rest)[1..] == rest
  {
  }

  lemma StoulBehindSpace(s: string, sign: string, rest: string)
    requires SkipSpace(s) == sign + rest && sign in ["", "+", "-"]
    requires sign == "" && rest != "" ==> rest[0] != '+' && rest[0] != '-'
    ensures var d := Digits(rest);
            Stoul(s) ==
            if d == "" || SIZE_MODULUS <= NumberOf(d) then None
            else Some(if sign == "-" then (SIZE_MODULUS - NumberOf(d)) % SIZE_MODULUS else NumberOf(d))
  {
    hide NumberOf, SkipSpace, Digits;
    SignInFront(sign, rest);
  }

  lemma WrapsBelow(n: nat)
    ensures n == 0 ==> (SIZE_MODULUS - n) % SIZE_MODULUS == 0
    ensures 0 < n < SIZE_MODULUS ==> (SIZE_MODULUS - n) % SIZE_MODULUS == SIZE_MODULUS - n
  {
  }

  /** A line without carriage returns ends where its line end is. */
  lemma LineEndBehind(before: string, line: string, rest: string)
    requires '\r' !in line
    ensures Find(before + line + LINE_END + rest, LINE_END, |before|) == Some(|before| + |line|)
  {
    var s := before + line + LINE_END + rest;
    var end := |before| + |line|;
    assert s[end..end + 2] == LINE_END;
    forall j | |before| <= j < end ensures !At(s, LINE_END, j) {
      assert s[j] == line[j - |before|];
      Mismatch(s, LINE_END, j, 0);
    }
    FirstAt(s, LINE_END, |before|, end);
  }

  /** The field that begins at `cl` has this value: the rest of its line. */
  predicate HasValue(s: string, cl: nat, value: string) {
    cl + |LENGTH_FIELD| + |value| <= |s|
    && Find(s, LINE_END, cl) == Some(cl + |LENGTH_FIELD| + |value|)
    && s[cl + |LENGTH_FIELD|..cl + |LENGTH_FIELD| + |value|] == value
  }

  /** The line of the length field ends behind its value. */
  lemma ValueLineEnd(head: string, before: string, left: string, numeral: string, right: string, after: string)
    requires DeclaresLength(head, before, left, numeral, right, after)
    ensures HasValue(head, |before|, left + numeral + right)
  {
    hide Find;
    var value := left + numeral + right;
    LineHasNoReturn(left, numeral, right);
    Regroup(before, LENGTH_FIELD, left, numeral, right, LINE_END, after);
    LineEndBehind(before, LENGTH_FIELD + value, after);
    Middle(before, LENGTH_FIELD, value, LINE_END, after);
  }

  lemma Middle(before: string, field: string, value: string, end: string, after: string)
    ensures var s := before + (field + value) + end + after;
            var v := |before| + |field|;
            s[v..v + |value|] == value
  {
  }

  lemma Regroup(before: string, field: string, left: string, numeral: string, right: string, end: string, after: string)
    ensures before + field + left + numeral + right + end + after
            == before + (field + (left + numeral + right)) + end + after
  {
    assert before + field + left + numeral + right == before + (field + (left + numeral + right));
  }

  lemma LineHasNoReturn(left: string, numeral: string, right: string)
    requires AllBlank(left) && AllBlank(right) && IsNumeral(numeral)
    ensures '\r' !in LENGTH_FIELD + (left + numeral + right)
  {
    assert '\r' !in LENGTH_FIELD && '\r' !in left && '\r' !in numeral && '\r' !in right;
  }

  /** A head that declares a length takes that many bytes more. */
  lemma DeclaredFrame(head: string, before: string, left: string, numeral: string, right: string, after: string)
    requires IsHead(head) && DeclaresLength(head, before, left, numeral, right, after)
    requires |head| + NumberOf(numeral) < SIZE_MODULUS
    ensures FrameOf(head) == Total(|head| + NumberOf(numeral))
  {
    DeclaredField(head, before, left, numeral, right, after);
    ValueLineEnd(head, before, left, numeral, right, after);
    hide Find, Trim, Stoul, FrameOf, AllBlank, IsHead, DeclaresLength, NumberOf, HasValue;
    TrimBlanks(left, numeral, right);
    StoulOfNumeral(numeral);
    FrameFrom(head, |before|, left + numeral + right, NumberOf(numeral));
  }

  lemma DeclaredField(head: string, before: string, left: string, numeral: string, right: string, after: string)
    requires DeclaresLength(head, before, left, numeral, right, after)
    ensures Find(head, LENGTH_FIELD, 0) == Some(|before|) && |before| < |head| - |HEAD_END|
    ensures AllBlank(left) && AllBlank(right) && IsNumeral(numeral)
  {
  }

  lemma FrameOfValue(head: string, cl: nat, value: string)
    requires IsHead(head) && Find(head, LENGTH_FIELD, 0) == Some(cl) && cl < |head| - |HEAD_END|
    requires HasValue(head, cl, value)
    ensures FrameOf(head) == FrameWith(|head| - |HEAD_END|, value)
  {
    hide Find, FrameWith, At;
    var end := cl + |LENGTH_FIELD| + |value|;
    assert Find(head, HEAD_END, 0) == Some(|head| - |HEAD_END|) && Find(head, LINE_END, cl) == Some(end);
    assert head[cl + |LENGTH_FIELD|..end] == value;
  }

  lemma FrameFrom(head: string, cl: nat, value: string, n: nat)
    requires IsHead(head) && Find(head, LENGTH_FIELD, 0) == Some(cl) && cl < |head| - |HEAD_END|
    requires HasValue(head, cl, value)
    requires Stoul(Trim(value)) == Some(n) && |head| + n < SIZE_MODULUS
    ensures FrameOf(head) == Total(|head| + n)
  {
    hide Find, FrameOf, Trim, Stoul, HasValue, IsHead, Wrapped;
    FrameOfValue(head, cl, value);
  }

  /** A length that cannot be read makes the check throw, whatever follows the head. */
  lemma {:induction false} UnreadableLengthThrows(head: string, cl: nat, value: string, more: string)
    requires IsHead(head) && Find(head, LENGTH_FIELD, 0) == Some(cl) && cl < |head| - |HEAD_END|
    requires HasValue(head, cl, value) && Stoul(Trim(value)).None?
    ensures IsCompleteMessage(head + more) == Throws
  {
    FrameOfValue(head, cl, value);
    hide Find, Trim, Stoul, HasValue;
    FrameIsStable(head, more);
  }

  /** Nothing is complete before its head is. */
  lemma NoHeadYet(head: string, k: nat)
    requires IsHead(head) && k < |head|
    ensures FrameOf(head[..k]) == NoHead
  {
    var r := Find(head[..k], HEAD_END, 0);
    if r.Some? {
      assert head == head[..k] + head[k..];
      AtPrefix(head[..k], head[k..], HEAD_END, r.value);
    }
  }

  /** A message is its head and as many bytes as the head takes; every strict prefix asks for more. */
  lemma {:induction false} FramingIsExact(head: string, body: string, k: nat)
    requires IsHead(head) && FrameOf(head) == Total(|head| + |body|) && k <= |head + body|
    ensures IsCompleteMessage((head + body)[..k]) == if k < |head + body| then NeedMoreData else Complete
  {
    var part := (head + body)[..k];
    if k < |head| {
      assert part == head[..k];
      NoHeadYet(head, k);
    } else {
      assert part == head + body[..k - |head|];
      FrameIsStable(head, body[..k - |head|]);
    }
  }

  /** With a declared length: complete exactly when that many bytes have followed the head. */
  lemma DeclaredMessageIsExact(head: string, before: string, left: string, numeral: string, right: string,
                               after: string, body: string, k: nat)
    requires IsHead(head) && DeclaresLength(head, before, left, numeral, right, after)
    requires NumberOf(numeral) == |body| && |head + body| < SIZE_MODULUS && k <= |head + body|
    ensures IsCompleteMessage((head + body)[..k]) == if k < |head + body| then NeedMoreData else Complete
  {
    DeclaredFrame(head, before, left, numeral, right, after);
    FramingIsExact(head, body, k);
  }

  /** Without a length field: complete exactly when the head is. */
  lemma {:induction false} BareMessageIsExact(head: string, k: nat)
    requires IsHead(head) && Find(head, LENGTH_FIELD, 0).None? && k <= |head|
    ensures IsCompleteMessage(head[..k]) == if k < |head| then NeedMoreData else Complete
  {
    hide Find, Trim, Stoul;
    assert FrameOf(head) == Total(|head|);
    assert head + "" == head;
    FramingIsExact(head, "", k);
  }

  // ----- the request -----

  function Method(buffer: string): string {
    match Find(buffer, " ", 0)
    case None => ""
    case Some(methodEnd) => buffer[..methodEnd]
  }

  function Url(buffer: string): string {
    match Find(buffer, " ", 0)
    case None => ""
    case Some(methodEnd) =>
      match Find(buffer, " ", methodEnd + 1)
      case None => ""
      case Some(urlEnd) => buffer[methodEnd + 1..urlEnd]
  }

  function Data(buffer: string): Option<string> {
    match Find(buffer, HEAD_END, 0)
    case None => None
    case Some(headersEnd) => Some(buffer[headersEnd + 4..])
  }

  datatype HttpRequest = HttpRequest(verb: string, url: string, version: string, data: Option<string>)

  function Handle(buffer: string): HttpRequest {
    HttpRequest(Method(buffer), Url(buffer), "HTTP/1.1", Data(buffer))
  }

  lemma FindSpace(s: string, from: nat, i: nat)
    requires from <= i < |s| && s[i] == ' ' && forall j :: from <= j < i ==> s[j] != ' '
    ensures Find(s, " ", from) == Some(i)
  {
    assert s[i..i + 1] == " ";
    forall j | from <= j < i ensures !At(s, " ", j) {
      assert s[j..j + 1][0] == s[j];
    }
    FirstAt(s, " ", from, i);
  }

  lemma WordsOfLine(s: string, verb: string, url: string, tail: string)
    requires s == verb + [' '] + url + [' '] + tail && ' ' !in verb && ' ' !in url
    ensures Method(s) == verb && Url(s) == url
  {
    var m := |verb|;
    assert s[..m] == verb && s[m + 1..m + 1 + |url|] == url;
    assert forall j :: 0 <= j < m ==> s[j] == verb[j];
    FindSpace(s, 0, m);
    assert forall j :: m + 1 <= j < m + 1 + |url| ==> s[j] == url[j - (m + 1)];
    FindSpace(s, m + 1, m + 1 + |url|);
  }

  /** A request is read back: its method, its target, and all the bytes behind its head. */
  lemma {:induction false} RequestRoundTrip(verb: string, url: string, fields: string, body: string)
    requires ' ' !in verb && ' ' !in url
    requires IsHead(verb + [' '] + url + [' '] + fields)
    ensures Handle(verb + [' '] + url + [' '] + fields + body) == HttpRequest(verb, url, "HTTP/1.1", Some(body))
  {
    var head := verb + [' '] + url + [' '] + fields;
    var s := head + body;
    assert s == verb + [' '] + url + [' '] + (fields + body);
    WordsOfLine(s, verb, url, fields + body);
    FindPrefix(head, body, HEAD_END, 0);
    assert s[|head|..] == body;
  }

  lemma NoSpaceFound(s: string, from: nat)
    requires from <= |s|
    ensures Find(s, " ", from).None? <==> ' ' !in s[from..]
    ensures Find(s, " ", from).Some? ==> s[Find(s, " ", from).value] == ' ' && ' ' !in s[from..Find(s, " ", from).value]
  {
    var r := Find(s, " ", from);
    if r.Some? {
      assert s[r.value..r.value + 1][0] == s[r.value] == s[from..][r.value - from];
      forall j | from <= j < r.value ensures s[j] != ' ' {
        assert !At(s, " ", j) && s[j..j + 1] == [s[j]];
      }
    } else {
      forall j | from <= j < |s| ensures s[j] != ' ' {
        assert !At(s, " ", j) && s[j..j + 1] == [s[j]];
      }
    }
  }

  /** Of any bytes whatever: the method ends at the first space and is empty without one. */
  lemma {:induction false} MethodMeaning(s: string)
    ensures var verb := Method(s);
            ' ' !in verb && if ' ' in s then verb + [' '] <= s else verb == ""
  {
    hide Find;
    NoSpaceFound(s, 0);
    assert s[0..] == s;
  }

  /** Of any bytes whatever: the target lies between the first two spaces and is empty without them. */
  lemma {:induction false} UrlMeaning(s: string)
    ensures var url := Url(s);
            ' ' !in url
            && if ' ' !in s then url == ""
               else var rest := s[|Method(s)| + 1..]; if ' ' in rest then url + [' '] <= rest else url == ""
  {
    hide Find;
    NoSpaceFound(s, 0);
    assert s[0..] == s;
    var m := Find(s, " ", 0);
    if m.Some? {
      NoSpaceFound(s, m.value + 1);
    }
  }

  /** Of any bytes whatever: the data is what follows the first head, if there is one. */
  lemma {:induction false} DataMeaning(s: string)
    ensures match Data(s)
            case Some(data) => exists head :: IsHead(head) && s == head + data
            case None => forall i :: !At(s, HEAD_END, i)
  {
    var end := Find(s, HEAD_END, 0);
    if end.Some? {
      var head := s[..end.value + 4];
      assert s == head + s[end.value + 4..];
      forall j | 0 <= j <= end.value ensures At(head, HEAD_END, j) <==> At(s, HEAD_END, j) {
        AtPrefix(head, s[end.value + 4..], HEAD_END, j);
      }
      FirstAt(head, HEAD_END, 0, end.value);
      assert IsHead(head);
    }
  }

  // ----- a request from end to end -----

  function RequestLine(verb: string, url: string): string {
    verb + [' '] + url + [' '] + "HTTP/1.1"
  }

  function LengthLine(n: nat): string {
    LENGTH_FIELD + (" " + ToDecimal(n) + "")
  }

  function RenderHead(verb: string, url: string, n: nat): string {
    RequestLine(verb, url) + LINE_END + LengthLine(n) + (LINE_END + LINE_END)
  }

  ghost predicate NoReturn(s: string) {
    '\r' !in s
  }

  /** Two lines without carriage returns, and the empty line. */
  lemma TwoLinesAreHead(first: string, second: string)
    requires NoReturn(first) && NoReturn(second) && second != ""
    ensures IsHead(first + LINE_END + second + (LINE_END + LINE_END))
  {
    var head := first + LINE_END + second + (LINE_END + LINE_END);
    var end := |head| - 4;
    assert head[end..end + 4] == HEAD_END;
    forall j | 0 <= j < end ensures !At(head, HEAD_END, j) {
      if j < |first| {
        assert head[j] == first[j];
        Mismatch(head, HEAD_END, j, 0);
      } else if j == |first| {
        assert head[j + 2] == second[0];
        Mismatch(head, HEAD_END, j, 2);
      } else if j == |first| + 1 {
        Mismatch(head, HEAD_END, j, 0);
      } else {
        assert head[j] == second[j - |first| - 2];
        Mismatch(head, HEAD_END, j, 0);
      }
    }
    FirstAt(head, HEAD_END, 0, end);
  }

  /** A name that is not in the first line is first found where the second line begins with it. */
  lemma FirstBehindLine(first: string, name: string, value: string)
    requires name != "" && '\r' !in name && '\n' !in name && Find(first, name, 0).None?
    ensures Find(first + LINE_END + (name + value), name, 0) == Some(|first| + 2)
  {
    var rest := LINE_END + (name + value);
    var s := first + LINE_END + (name + value);
    var at := |first| + 2;
    assert s == first + rest && s[|first|] == '\r' && s[|first| + 1] == '\n';
    assert s[at..at + |name|] == name;
    forall j | 0 <= j < at ensures !At(s, name, j) {
      if j + |name| <= |first| {
        AtPrefix(first, rest, name, j);
      } else {
        Mismatch(s, name, j, if j <= |first| then |first| - j else 0);
      }
    }
    FirstAt(s, name, 0, at);
  }

  ghost predicate Sendable(verb: string, url: string) {
    ' ' !in verb && ' ' !in url && NoReturn(RequestLine(verb, url))
    && Find(RequestLine(verb, url), LENGTH_FIELD, 0).None?
  }

  lemma RenderedHead(verb: string, url: string, n: nat)
    requires Sendable(verb, url)
    ensures var before := RequestLine(verb, url) + LINE_END;
            IsHead(RenderHead(verb, url, n))
            && DeclaresLength(RenderHead(verb, url, n), before, " ", ToDecimal(n), "", LINE_END)
  {
    hide Find, RequestLine;
    var first, numeral := RequestLine(verb, url), ToDecimal(n);
    LineHasNoReturn(" ", numeral, "");
    TwoLinesAreHead(first, LengthLine(n));
    assert '\r' !in LENGTH_FIELD && '\n' !in LENGTH_FIELD;
    FirstBehindLine(first, LENGTH_FIELD, " " + numeral + "" + LINE_END + LINE_END);
    RegroupHead(first, LINE_END, LENGTH_FIELD, " ", numeral);
  }

  lemma RegroupHead(first: string, end: string, field: string, blank: string, numeral: string)
    ensures var head := first + end + (field + (blank + numeral + "")) + (end + end);
            head == first + end + (field + (blank + numeral + "" + end + end))
            && head == (first + end) + field + blank + numeral + "" + end + end
  {
    var head := first + end + (field + (blank + numeral + "")) + (end + end);
    assert head == first + end + (field + (blank + numeral + "" + end + end));
    assert head == (first + end) + field + blank + numeral + "" + end + end;
  }

  lemma RenderedIsReadBack(verb: string, url: string, body: string)
    requires Sendable(verb, url)
    ensures Handle(RenderHead(verb, url, |body|) + body) == HttpRequest(verb, url, "HTTP/1.1", Some(body))
  {
    RenderedHead(verb, url, |body|);
    hide Find, Handle, LengthLine;
    var start, line, end := verb + [' '] + url + [' '], LengthLine(|body|), LINE_END + LINE_END;
    var fields := "HTTP/1.1" + LINE_END + line + end;
    assert start + "HTTP/1.1" + LINE_END + line + end == start + fields;
    RequestRoundTrip(verb, url, fields, body);
  }

  /** A request sent with its length is recognised exactly when it has all arrived, and is then read back. */
  lemma {:induction false} RenderedRequestArrives(verb: string, url: string, body: string, k: nat)
    requires Sendable(verb, url)
    requires var sent := RenderHead(verb, url, |body|) + body; |sent| < SIZE_MODULUS && k <= |sent|
    ensures var sent := RenderHead(verb, url, |body|) + body;
            IsCompleteMessage(sent[..k]) == (if k < |sent| then NeedMoreData else Complete)
            && Handle(sent) == HttpRequest(verb, url, "HTTP/1.1", Some(body))
  {
    var before := RequestLine(verb, url) + LINE_END;
    RenderedHead(verb, url, |body|);
    ReadBack(|body|);
    hide Find, RenderHead, DeclaresLength, Handle, IsCompleteMessage;
    DeclaredMessageIsExact(RenderHead(verb, url, |body|), before, " ", ToDecimal(|body|), "", LINE_END, body, k);
    RenderedIsReadBack(verb, url, body);
  }

  // ----- choosing the parser -----

  const MAX_SIGNATURE_LENGTH: nat := 20

  /** The parser registered for a protocol is named by a number. */
  class ParserFactory {
    var registry: map<string, int>

    constructor ()
      ensures registry == map[]
    {
      registry := map[];
    }

    method RegisterParser(protocol: string, creator: int)
      modifies this
      ensures registry == old(registry)[protocol := creator]
    {
      registry := registry[protocol := creator];
    }

    /** The parser of the longest registered prefix, among prefixes of at most 20 bytes. */
    method GetParser(buffer: string) returns (r: Option<int>)
      ensures var most := if |buffer| < MAX_SIGNATURE_LENGTH then |buffer| else MAX_SIGNATURE_LENGTH;
              match r
              case Some(creator) =>
                exists n :: 0 < n <= most && buffer[..n] in registry && registry[buffer[..n]] == creator
                            && forall k :: n < k <= most ==> buffer[..k] !in registry
              case None => forall k :: 0 < k <= most ==> buffer[..k] !in registry
    {
      if buffer == "" {
        return None;
      }
      var most := if |buffer| < MAX_SIGNATURE_LENGTH then |buffer| else MAX_SIGNATURE_LENGTH;
      var n := most;
      while 0 < n
        invariant 0 <= n <= most
        invariant forall k :: n < k <= most ==> buffer[..k] !in registry
      {
        if buffer[..n] in registry {
          return Some(registry[buffer[..n]]);
        }
        n := n - 1;
      }
      r := None;
    }
  }
}
