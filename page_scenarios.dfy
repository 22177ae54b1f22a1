/** The scenarios of the page's test suite, on page<128>. */
module PageScenarios {
  import opened Bytes
  import opened SlottedPage

  const Hello: seq<Byte> := [0x48, 0x65, 0x6c, 0x6c, 0x6f]
  const World: seq<Byte> := [0x57, 0x6f, 0x72, 0x6c, 0x64]
  const Jello: seq<Byte> := [0x4a, 0x65, 0x6c, 0x6c, 0x6f]

  /** A new page holds nothing, fits 50 bytes and does not fit 200; at(0)
      is out of range. */
  method NewPageScenario() returns (size: nat, empty: bool, holdsFirst: bool, fits50: bool, fits200: bool, first: Result<seq<Byte>>)
    ensures size == 0 && empty && !holdsFirst && fits50 && !fits200 && first == Err(OutOfRange)
  {
    var p := new Page();
    size, empty, holdsFirst := p.header.Size(), p.header.Empty(), p.header.Contains(0);
    fits50, fits200 := p.header.Fits(50), p.header.Fits(200);
    first := p.At(0);
  }

  /** After one insert the page contains index 0 and no longer is empty. */
  method ContainsAfterInsertScenario() returns (holdsFirst: bool, empty: bool)
    ensures holdsFirst && !empty
  {
    var p := new Page();
    var i := p.Insert(Hello);
    holdsFirst, empty := p.header.Contains(0), p.header.Empty();
  }

  /** A new page into which "Hello" and then "World" were inserted. */
  method HelloWorldPage() returns (p: Page)
    ensures fresh(p) && fresh(p.data) && p.data.Length == DataSize
    ensures p.Valid() && p.Records() == [Hello, World]
  {
    p := new Page();
    var i := p.Insert(Hello);
    var j := p.Insert(World);
  }

  /** "Hello" then "World" go to indices 0 and 1 and read back; index 2 is out of range. */
  method InsertAndReadScenario() returns (size: nat, empty: bool, first: Result<seq<Byte>>, second: Result<seq<Byte>>, third: Result<seq<Byte>>)
    ensures size == 2 && !empty && first == Ok(Hello) && second == Ok(World) && third == Err(OutOfRange)
  {
    var p := HelloWorldPage();
    size, empty := p.header.Size(), p.header.Empty();
    first, second, third := p.At(0), p.At(1), p.At(2);
  }

  /** A 128-byte record does not fit a 128-byte page. */
  method OversizedInsertScenario() returns (r: Result<nat>, size: nat)
    ensures r == Err(BadAlloc) && size == 0
  {
    var p := new Page();
    r := p.Insert(seq(128, _ => 0x61));
    size := p.header.Size();
  }

  /** Writing 'J' over the first byte of the view of "Hello" turns the record into "Jello". */
  method ModifyViewScenario() returns (modified: Result<seq<Byte>>)
    ensures modified == Ok(Jello)
  {
    var p := new Page();
    var i := p.Insert(Hello);
    assert p.Records() == [Hello];
    var w := p.WriteAt(0, 0, 0x4a);
    assert Hello[0 := 0x4a] == Jello;
    assert p.Records() == [Jello];
    modified := p.At(0);
  }

  /** After clear() the page reports no records. */
  method ClearScenario() returns (size: nat, empty: bool, holdsFirst: bool)
    ensures size == 0 && empty && !holdsFirst
  {
    var p := new Page();
    var i := p.Insert(Hello);
    p.Clear();
    size, empty, holdsFirst := p.header.Size(), p.header.Empty(), p.header.Contains(0);
  }

  /** A page written to a stream and read back into a new page holds the same records. */
  method SerializeScenario() returns (size: nat, first: Result<seq<Byte>>, second: Result<seq<Byte>>)
    ensures size == 2 && first == Ok(Hello) && second == Ok(World)
  {
    var p := HelloWorldPage();
    var q := TransferPage(p);
    assert q.Records() == [Hello, World];
    size := q.header.Size();
    first, second := q.At(0), q.At(1);
  }
}
