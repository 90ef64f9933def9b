/** The response body buffer (src/lws_request.c), and its encoding when it is posted (src/lws_interface.c). */
module ResponseBody {
  import opened Wrappers
  import Base64
  import Utf8

  /** "text/html", "text/plain" and "application/json". */
  const TEXT_HTML: bytes := [116, 101, 120, 116, 47, 104, 116, 109, 108]
  const TEXT_PLAIN: bytes := [116, 101, 120, 116, 47, 112, 108, 97, 105, 110]
  const APPLICATION_JSON: bytes := [97, 112, 112, 108, 105, 99, 97, 116, 105, 111, 110, 47, 106, 115, 111, 110]

  predicate LikelyUtf8(contentType: Option<bytes>) {
    contentType.Some? &&
    (TEXT_HTML <= contentType.value || TEXT_PLAIN <= contentType.value || APPLICATION_JSON <= contentType.value)
  }

  /** Bodies whose Content-Type begins with one of three texts. */
  lemma LikelyTypes(contentType: bytes)
    ensures !LikelyUtf8(None)
    ensures LikelyUtf8(Some(contentType)) <==>
      || Ascii("text/html") <= contentType
      || Ascii("text/plain") <= contentType
      || Ascii("application/json") <= contentType
  {
    assert Ascii("text/html") == TEXT_HTML && Ascii("text/plain") == TEXT_PLAIN;
    assert Ascii("application/json") == APPLICATION_JSON;
  }

  function EncodedLen(len: nat): nat {
    (len + 2) / 3 * 4
  }

  /** The room wanted for a body of `len` bytes: its encoded length if it may have to be encoded and that fits. */
  function Required(len: nat, encode: bool): nat {
    if encode && EncodedLen(len) <= SIZE_MAX then EncodedLen(len) else len
  }

  const MEBI: nat := 1024 * 1024

  /** The bound in the growth loop is the exact one: one more, and growing by a half would overflow. */
  lemma GrowthBoundExact(c: nat)
    ensures c + c / 2 <= SIZE_MAX <==> c <= SIZE_MAX / 3 * 2
    ensures c * 2 <= SIZE_MAX <==> c <= SIZE_MAX / 2
  {
  }

  /** The capacities that growth goes through, if a size_t could hold them all. */
  function Grown(cap: nat, k: nat): (c: nat) {
    if k == 0 then (if cap == 0 then 4096 else cap)
    else var c := Grown(cap, k - 1); if c < 1024 * 1024 then c * 2 else c + c / 2
  }

  /** The first of them that is enough, or just what is required if that one does not fit a size_t. */
  ghost predicate GrownTo(cap: nat, required: nat, capacity: nat) {
    exists k: nat ::
      && required <= Grown(cap, k) && (forall j: nat :: j < k ==> Grown(cap, j) < required)
      && capacity == if Grown(cap, k) <= SIZE_MAX then Grown(cap, k) else required
  }

  /**
   * The growth loop of lws_write_response_body. No step overflows a size_t, and the result is below twice
   * what is required, unless it is the initial 4096.
   */
  method Grow(cap: nat, required: nat) returns (capacity: nat)
    requires cap < required <= SIZE_MAX
    ensures required <= capacity <= SIZE_MAX
    ensures capacity < 2 * required || (cap == 0 && capacity == 4096)
    ensures GrownTo(cap, required, capacity)
  {
    capacity := cap;
    if capacity == 0 {
      capacity := 4096;
    }
    ghost var k: nat := 0;
    while capacity < required
      invariant 0 < capacity <= SIZE_MAX
      invariant capacity < 2 * required || (cap == 0 && capacity == 4096)
      invariant forall j: nat :: j < k ==> Grown(cap, j) < required
      invariant capacity == Grown(cap, k) || (capacity == required <= SIZE_MAX < Grown(cap, k))
      decreases required - capacity
    {
      GrowthBoundExact(capacity);
      k := k + 1;
      if capacity < MEBI {
        if capacity <= SIZE_MAX / 2 {
          capacity := capacity * 2;
        } else {
          capacity := required;
        }
      } else {
        if capacity <= SIZE_MAX / 3 * 2 {
          capacity := capacity + capacity / 2;
        } else {
          capacity := required;
        }
      }
    }
  }

  /** The "determine required space" step of lws_write_response_body. */
  method Wanted(len: nat, encode: bool) returns (required: nat)
    requires len <= SIZE_MAX
    ensures required == Required(len, encode)
    ensures len <= required <= SIZE_MAX
  {
    required := len;
    if encode {
      var encoded := Base64.EncodeLen(len);
      if encoded.Some? {
        required := encoded.value;
      }
    }
  }

  /**
   * Room for the encoding of the body is room for that of every shorter body, exactly if the encoded length
   * of the body itself fits a size_t or the capacity is at the very top of that range.
   */
  lemma SeekKeepsRoom(len: nat, cap: nat)
    requires Required(len, true) <= cap <= SIZE_MAX
    ensures (forall offset: nat | offset <= len :: Required(offset, true) <= cap)
       <==> EncodedLen(len) <= SIZE_MAX || SIZE_MAX - 3 <= cap
  {
    var longest := SIZE_MAX / 4 * 3;
    assert EncodedLen(longest) == SIZE_MAX - 3;
    if EncodedLen(len) > SIZE_MAX {
      assert Required(longest, true) == SIZE_MAX - 3;
    }
    forall offset: nat | offset <= len ensures EncodedLen(offset) <= EncodedLen(len) {
    }
    forall offset: nat | EncodedLen(offset) <= SIZE_MAX ensures EncodedLen(offset) <= SIZE_MAX - 3 {
    }
  }

  class Body {
    /** The allocation; its length is the capacity. */
    var data: array<byte>
    var len: nat
    var likelyUtf8: bool
    var streaming: bool

    ghost predicate Valid()
      reads this
    {
      len <= data.Length <= SIZE_MAX
    }

    ghost function Contents(): bytes
      reads this, data
      requires Valid()
    {
      data[..len]
    }

    /** A body that may have to be encoded already has the room for that, if a size_t can say how much. */
    ghost predicate HasRoom()
      reads this
    {
      len > 0 && !likelyUtf8 && !streaming ==> Required(len, true) <= data.Length
    }

    constructor ()
      ensures Valid() && HasRoom() && Contents() == [] && data.Length == 0 && fresh(data) && !streaming
    {
      data, len, likelyUtf8, streaming := new byte[0], 0, false, false;
    }

    /** lws_realloc to a larger capacity. */
    method Realloc(capacity: nat)
      requires Valid() && data.Length <= capacity <= SIZE_MAX
      modifies this`data
      ensures Valid() && fresh(data) && data.Length == capacity && Contents() == old(Contents())
    {
      var bigger := new byte[capacity];
      forall i | 0 <= i < data.Length {
        bigger[i] := data[i];
      }
      data := bigger;
    }

    /** The "allocate as needed" step of lws_write_response_body. */
    method Reserve(required: nat)
      requires Valid() && required <= SIZE_MAX
      modifies this`data
      ensures Valid() && Contents() == old(Contents()) && required <= data.Length
      ensures if required <= old(data.Length) then data == old(data) else fresh(data)
      ensures data != old(data) ==> data.Length < 2 * required || (old(data.Length) == 0 && data.Length == 4096)
      ensures data != old(data) ==> GrownTo(old(data.Length), required, data.Length)
    {
      hide GrownTo;
      if data.Length < required {
        var capacity := Grow(data.Length, required);
        Realloc(capacity);
      }
    }

    /** The memcpy and the new length. */
    method Append(bytes: bytes)
      requires Valid() && len + |bytes| <= data.Length
      modifies this`len, data
      ensures Valid() && Contents() == old(Contents()) + bytes
    {
      forall i | 0 <= i < |bytes| {
        data[len + i] := bytes[i];
      }
      len := len + |bytes|;
      assert data[..len] == old(data[..len]) + bytes;
    }

    /** lws_write_response_body, given the Content-Type header of the moment. */
    method Write(bytes: bytes, contentType: Option<bytes>) returns (rc: int)
      requires Valid()
      modifies this`data, this`len, this`likelyUtf8, data
      ensures Valid() && (data == old(data) || fresh(data))
      ensures rc == if old(len) + |bytes| > SIZE_MAX then -1 else |bytes|
      ensures Contents() == if rc == -1 then old(Contents()) else old(Contents()) + bytes
      ensures likelyUtf8 == if rc >= 0 && old(len) == 0 then LikelyUtf8(contentType) else old(likelyUtf8)
      ensures rc >= 0 || old(HasRoom()) ==> HasRoom()
      ensures rc >= 0 ==> Required(len, !likelyUtf8 && !streaming) <= data.Length
      ensures data != old(data) ==>
                var required := Required(len, !likelyUtf8 && !streaming);
                old(data.Length) < required &&
                (data.Length < 2 * required || (old(data.Length) == 0 && data.Length == 4096)) &&
                GrownTo(old(data.Length), required, data.Length)
    {
      hide EncodedLen, LikelyUtf8, GrownTo;
      if |bytes| > SIZE_MAX - len {
        return -1;
      }
      if len == 0 {
        likelyUtf8 := LikelyUtf8(contentType);
      }
      var required := Wanted(len + |bytes|, !(likelyUtf8 || streaming));
      Reserve(required);
      Append(bytes);
      return |bytes|;
    }

    /** lws_seek_response_body: only to a position within the body, which is cut off there. */
    method Seek(offset: int, fromStart: bool) returns (rc: int)
      requires Valid()
      modifies this`len
      ensures Valid()
      ensures rc == if fromStart && 0 <= offset <= old(len) then 0 else -1
      ensures Contents() == if rc == 0 then old(Contents())[..offset] else old(Contents())
      ensures old(HasRoom()) && (EncodedLen(old(len)) <= SIZE_MAX || SIZE_MAX - 3 <= data.Length) ==> HasRoom()
    {
      if !fromStart || offset < 0 || offset > len {
        return -1;
      }
      if Required(len, true) <= data.Length {
        SeekKeepsRoom(len, data.Length);
      }
      len := offset;
      return 0;
    }

    /** The "body" step of lws_post_response: what is not UTF-8 is encoded in place, with more room if needed. */
    method Prepare() returns (rc: int, base64: bool)
      requires Valid()
      modifies this`data, this`len, data
      ensures Valid()
      ensures base64 <==> !Utf8.IsUtf8(old(Contents()))
      ensures rc == if base64 && EncodedLen(old(len)) > SIZE_MAX then -1 else 0
      ensures Contents() == if rc == 0 && base64 then Base64.Encoded(old(Contents())) else old(Contents())
      ensures old(HasRoom()) && !likelyUtf8 && !streaming ==> data == old(data)
    {
      var valid := Utf8.ValidUtf8(data[..len]);
      base64 := valid != 0;
      if base64 {
        var encoded := Base64.EncodeLen(len);
        if encoded == None {
          return -1, base64;
        }
        if data.Length < encoded.value {
          Realloc(encoded.value);
        }
        len := Base64.Encode(data, len);
      }
      rc := 0;
    }
  }

  /** What a script can do to the body: io writes, with the Content-Type of the moment, and seeks. */
  datatype Event = Write(data: bytes, contentType: Option<bytes>) | Seek(offset: int)

  function After(body: bytes, event: Event): bytes {
    match event
    case Write(data, _) => if |body| + |data| > SIZE_MAX then body else body + data
    case Seek(offset) => if 0 <= offset <= |body| then body[..offset] else body
  }

  /** The body after the first `n` events. */
  function AfterAll(body: bytes, events: seq<Event>, n: nat): bytes
    requires n <= |events|
  {
    if n == 0 then body else After(AfterAll(body, events, n - 1), events[n - 1])
  }

  ghost predicate AlwaysEncodable(body: bytes, events: seq<Event>) {
    forall n: nat | n <= |events| :: EncodedLen(|AfterAll(body, events, n)|) <= SIZE_MAX
  }

  /** Any run of writes and seeks; room for the encoding is kept over all of it unless a length overflows. */
  method Play(b: Body, events: seq<Event>)
    requires b.Valid()
    modifies b, b.data
    ensures b.Valid() && (b.data == old(b.data) || fresh(b.data))
    ensures b.Contents() == AfterAll(old(b.Contents()), events, |events|)
    ensures old(b.HasRoom()) && AlwaysEncodable(old(b.Contents()), events) ==> b.HasRoom()
  {
    ghost var start := b.Contents();
    for i := 0 to |events|
      invariant b.Valid() && (b.data == old(b.data) || fresh(b.data))
      invariant b.Contents() == AfterAll(start, events, i)
      invariant old(b.HasRoom()) && AlwaysEncodable(start, events) ==> b.HasRoom()
    {
      assert b.len == |AfterAll(start, events, i)|;
      match events[i] {
        case Write(data, contentType) =>
          var _ := b.Write(data, contentType);
        case Seek(offset) =>
          var _ := b.Seek(offset, true);
      }
    }
  }
}
