/** The slice of HTTP the core touches: status codes, the shapes of the
    response bodies it produces, and the text view of a header value. */
module Http {
  import opened Base
  import opened Uuids
  import opened Models

  const StatusOk := 200
  const StatusBadRequest := 400
  const StatusUnauthorized := 401
  const StatusNotFound := 404
  const StatusInternalServerError := 500

  /** What a response carries: nothing (a bare status), plain text, or one
      of the JSON payloads. */
  datatype Body =
    | Empty
    | Text(text: string)
    | MessageJson(message: string)
    | ErrorJson(error: string)
    | TokenJson(token: string)
    | IdJson(id: Uuid)
    | TodosJson(todos: seq<TodoResponse>)

  datatype Response = Response(status: int, body: Body)

  /** The octets `HeaderValue::to_str` accepts: horizontal tab and the
      printable ASCII range. */
  predicate VisibleAscii(b: byte) {
    b == 9 || 32 <= b < 127
  }

  predicate AllVisibleAscii(h: seq<byte>) {
    forall i :: 0 <= i < |h| ==> VisibleAscii(h[i])
  }

  /** Octets read as characters, one for one. */
  function Chars(h: seq<byte>): (s: string)
    ensures |s| == |h|
    ensures forall i :: 0 <= i < |h| ==> s[i] as int == h[i] as int
  {
    seq(|h|, i requires 0 <= i < |h| => h[i] as int as char)
  }

  /** `HeaderValue::to_str`: the value as text when every octet is visible
      ASCII, and nothing otherwise. */
  function HeaderToStr(h: seq<byte>): Option<string> {
    if AllVisibleAscii(h) then Some(Chars(h)) else None
  }

  /** Text made only of characters `HeaderValue::to_str` accepts. */
  predicate VisibleAsciiText(s: string) {
    forall i :: 0 <= i < |s| ==> s[i] == '\t' || ' ' <= s[i] <= '~'
  }

  /** The octets of a header value written as the visible-ASCII text `s`. */
  function HeaderValueOf(s: string): (h: seq<byte>)
    requires VisibleAsciiText(s)
    ensures AllVisibleAscii(h)
    ensures Chars(h) == s
  {
    seq(|s|, i requires 0 <= i < |s| => s[i] as int as byte)
  }

  /** Reading a header value as text and writing that text back as octets
      are inverse: a value that reads as `s` is exactly the octets of `s`,
      and the octets of visible-ASCII text read back as that text. */
  lemma HeaderToStrRoundTrip(h: seq<byte>, s: string)
    ensures HeaderToStr(h) == Some(s) <==> VisibleAsciiText(s) && h == HeaderValueOf(s)
  {
    if HeaderToStr(h) == Some(s) {
      assert VisibleAsciiText(s) by {
        forall i | 0 <= i < |s| ensures s[i] == '\t' || ' ' <= s[i] <= '~' {
          assert s[i] as int == h[i] as int && VisibleAscii(h[i]);
        }
      }
      assert h == HeaderValueOf(s) by {
        var v := HeaderValueOf(s);
        assert |v| == |h|;
        forall i | 0 <= i < |h| ensures v[i] == h[i] {
          assert v[i] as int == s[i] as int == h[i] as int;
        }
      }
    }
  }
}
