/** The buffered-reader examples of the test suite, stated once for every
    positive read size. */
module ConnectionVectors {
  import opened Base
  import opened Util
  import opened Mocks
  import opened Connection

  // ---------------------------------------------------------------------
  // "the big cat" split on " "
  // ---------------------------------------------------------------------

  lemma CatStream(stream: string)
    requires stream == "cat"
    ensures StreamReadUntilMany(stream, " ", 3) == CLOSED3
  {
    FreeOfHead("cat", " ");
  }

  lemma BigCatStream(stream: string)
    requires stream == "the big cat"
    ensures StreamReadUntilMany(stream, " ", 5) == [Ok("the")] + ([Ok("big")] + CLOSED3)
  {
    assert stream == "the" + " " + "big cat";
    SplitFirstAfterHeadFree("the", " ", "big cat");
    var rest := "big cat";
    assert rest == "big" + " " + "cat";
    SplitFirstAfterHeadFree("big", " ", "cat");
    CatStream("cat");
    StreamReadUntilStep(stream, " ", 4, "the", rest);
    StreamReadUntilStep(rest, " ", 3, "big", "cat");
  }

  /** Whatever the read size, `read_until(" ")` on "the big cat" gives
      "the", then "big", then throws `ConnectionClosed` with "cat" still
      buffered, and keeps throwing. */
  lemma BigCatAnyReadSize(readSize: nat, ip: Addr)
    requires readSize > 0
    ensures ReadUntilMany(NewBufferedConnection(NewMockConnection("the big cat", readSize, ip)), " ", 5) ==
            [Ok("the"), Ok("big")] + CLOSED3
  {
    var bc := NewBufferedConnection(NewMockConnection("the big cat", readSize, ip));
    assert Pending(bc) == "the big cat";
    ReadUntilManyIsStream(bc, " ", 5);
    BigCatStream(Pending(bc));
    RegroupPair(Ok("the"), Ok("big"), CLOSED3);
  }

  // ---------------------------------------------------------------------
  // A two-character separator
  // ---------------------------------------------------------------------

  lemma HalloweenStep2()
    ensures SplitFirst("full cat stuffabmelodyababbutter", "ab") == Some(("full cat stuff", "melodyababbutter"))
  {
    assert "full cat stuffabmelodyababbutter" == "full cat stuff" + ['a', 'b'] + "melodyababbutter";
    SplitFirstAfterPairFree("full cat stuff", 'a', 'b', "melodyababbutter");
  }

  lemma HalloweenStep3()
    ensures SplitFirst("melodyababbutter", "ab") == Some(("melody", "abbutter"))
  {
    assert "melodyababbutter" == "melody" + ['a', 'b'] + "abbutter";
    SplitFirstAfterPairFree("melody", 'a', 'b', "abbutter");
  }

  lemma HalloweenStep4()
    ensures SplitFirst("abbutter", "ab") == Some(("", "butter"))
  {
    assert "abbutter" == "" + ['a', 'b'] + "butter";
    SplitFirstAfterPairFree("", 'a', 'b', "butter");
  }

  /** Four results in front of a tail, one at a time or all at once. */
  lemma Regroup<T>(a: T, b: T, c: T, d: T, tail: seq<T>)
    ensures [a] + ([b] + ([c] + ([d] + tail))) == [a, b, c, d] + tail
  {
  }

  /** Two results in front of a tail, one at a time or both at once. */
  lemma RegroupPair<T>(a: T, b: T, tail: seq<T>)
    ensures [a] + ([b] + tail) == [a, b] + tail
  {
  }

  const CLOSED3: seq<Result<string>> := [Err(ConnectionClosed), Err(ConnectionClosed), Err(ConnectionClosed)]

  lemma ButterStream(stream: string)
    requires stream == "butter"
    ensures StreamReadUntilMany(stream, "ab", 3) == CLOSED3
  {
    FreeOfHead("butter", "ab");
  }

  lemma AbButterStream(stream: string)
    requires stream == "abbutter"
    ensures StreamReadUntilMany(stream, "ab", 4) == [Ok("")] + CLOSED3
  {
    HalloweenStep4();
    ButterStream("butter");
    StreamReadUntilStep(stream, "ab", 3, "", "butter");
  }

  lemma MelodyStream(stream: string)
    requires stream == "melodyababbutter"
    ensures StreamReadUntilMany(stream, "ab", 5) == [Ok("melody")] + ([Ok("")] + CLOSED3)
  {
    HalloweenStep3();
    AbButterStream("abbutter");
    StreamReadUntilStep(stream, "ab", 4, "melody", "abbutter");
  }

  lemma FullCatStream(stream: string)
    requires stream == "full cat stuffabmelodyababbutter"
    ensures StreamReadUntilMany(stream, "ab", 6) ==
            [Ok("full cat stuff")] + ([Ok("melody")] + ([Ok("")] + CLOSED3))
  {
    HalloweenStep2();
    MelodyStream("melodyababbutter");
    StreamReadUntilStep(stream, "ab", 5, "full cat stuff", "melodyababbutter");
  }

  /** The multi-character example, written for the payload the test uses. */
  lemma HalloweenStream(payload: string)
    requires payload == "halloween" + "ab" + "full cat stuffabmelodyababbutter"
    ensures StreamReadUntilMany(payload, "ab", 7) ==
            [Ok("halloween"), Ok("full cat stuff"), Ok("melody"), Ok("")] + CLOSED3
  {
    SplitFirstAfterPairFree("halloween", 'a', 'b', "full cat stuffabmelodyababbutter");
    FullCatStream("full cat stuffabmelodyababbutter");
    StreamReadUntilStep(payload, "ab", 6, "halloween", "full cat stuffabmelodyababbutter");
    Regroup(Ok("halloween"), Ok("full cat stuff"), Ok("melody"), Ok(""), CLOSED3);
  }

  /** Whatever the read size, `read_until("ab")` hands out the four
      separated pieces, the empty one between two adjacent separators
      included, and then throws `ConnectionClosed` on the leftover
      "butter". */
  lemma HalloweenAnyReadSize(payload: string, readSize: nat, ip: Addr)
    requires payload == "halloween" + "ab" + "full cat stuffabmelodyababbutter"
    requires readSize > 0
    ensures ReadUntilMany(NewBufferedConnection(NewMockConnection(payload, readSize, ip)), "ab", 7) ==
            [Ok("halloween"), Ok("full cat stuff"), Ok("melody"), Ok("")] + CLOSED3
  {
    var bc := NewBufferedConnection(NewMockConnection(payload, readSize, ip));
    assert Pending(bc) == payload;
    ReadUntilManyIsStream(bc, "ab", 7);
    HalloweenStream(payload);
  }

  /** An empty mock throws `ConnectionClosed` on `read_until`, and the read
      writes nothing to it. */
  lemma EmptyMockThrows(readSize: nat, ip: Addr, sep: string)
    requires sep != ""
    ensures var (result, next) := ReadUntil(NewBufferedConnection(NewMockConnection("", readSize, ip)), sep);
            result == Err(ConnectionClosed) && next.conn.value.written == ""
  {
  }
}
