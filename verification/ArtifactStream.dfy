/** The length-prefixed byte stream behind the client artifact digest. */
module ArtifactStream {
  import opened Options
  import opened Decimal

  type Byte = n: int | 0 <= n < 256

  const COLON: Byte := 58

  /** A path in UTF-8 and the content read from it. */
  datatype Artifact = Artifact(path: seq<Byte>, content: seq<Byte>)

  function DigitByte(c: char): Byte
    requires IsDigit(c)
  {
    c as int
  }

  function DigitBytes(s: string): seq<Byte>
    requires forall i :: 0 <= i < |s| ==> IsDigit(s[i])
  {
    seq(|s|, i requires 0 <= i < |s| => DigitByte(s[i]))
  }

  /** `${byteLength}:` followed by the bytes. */
  function Field(data: seq<Byte>): seq<Byte> {
    DigitBytes(Numeral(|data|)) + [COLON] + data
  }

  /** The length is written in ASCII digits without a leading zero and ends with a colon. */
  lemma FieldIsLengthColonData(data: seq<Byte>)
    ensures var n := |Numeral(|data|)|;
            && |Field(data)| == n + 1 + |data| && Field(data)[n] == 58 && Field(data)[n + 1..] == data
            && (forall i :: 0 <= i < n ==> Field(data)[i] == Numeral(|data|)[i] as int)
            && (Numeral(|data|)[0] == '0' <==> data == [])
  {
    NumeralHasNoLeadingZero(|data|);
  }

  function Encode(files: seq<Artifact>): seq<Byte> {
    if files == [] then [] else Field(files[0].path) + Field(files[0].content) + Encode(files[1..])
  }

  /** A hash object: what has been fed to it so far. */
  class Hash {
    var fed: seq<Byte>

    constructor ()
      ensures fed == []
    {
      fed := [];
    }

    method Update(data: seq<Byte>)
      modifies this
      ensures fed == old(fed) + data
    {
      fed := fed + data;
    }
  }

  lemma {:induction false} EncodeSnoc(files: seq<Artifact>, f: Artifact)
    ensures Encode(files + [f]) == Encode(files) + (Field(f.path) + Field(f.content))
  {
    if files == [] {
      assert [] + [f] == [f] && [f][1..] == [];
    } else {
      EncodeSnoc(files[1..], f);
      assert (files + [f])[1..] == files[1..] + [f] && (files + [f])[0] == files[0];
      var own, last := Field(files[0].path) + Field(files[0].content), Field(f.path) + Field(f.content);
      assert own + (Encode(files[1..]) + last) == own + Encode(files[1..]) + last;
    }
  }

  lemma FourUpdates(fed: seq<Byte>, f: Artifact)
    ensures fed + (DigitBytes(Numeral(|f.path|)) + [COLON]) + f.path + (DigitBytes(Numeral(|f.content|)) + [COLON]) + f.content
         == fed + (Field(f.path) + Field(f.content))
  {
  }

  /** The body of the update loop. */
  method FeedOne(f: Artifact, hash: Hash)
    modifies hash
    ensures hash.fed == old(hash.fed) + (Field(f.path) + Field(f.content))
  {
    FourUpdates(hash.fed, f);
    hash.Update(DigitBytes(Numeral(|f.path|)) + [COLON]);
    hash.Update(f.path);
    hash.Update(DigitBytes(Numeral(|f.content|)) + [COLON]);
    hash.Update(f.content);
  }

  /** The update loop of `clientArtifactDigest`. */
  method FeedArtifacts(files: seq<Artifact>, hash: Hash)
    requires hash.fed == []
    modifies hash
    ensures hash.fed == Encode(files)
  {
    for i := 0 to |files|
      invariant hash.fed == Encode(files[..i])
    {
      FeedOne(files[i], hash);
      EncodeSnoc(files[..i], files[i]);
      assert files[..i + 1] == files[..i] + [files[i]];
    }
    assert files[..|files|] == files;
  }

  // ------------------------------------------------------------------ decoding

  /** Position of the first colon, or the length of the stream. */
  function ColonAt(s: seq<Byte>): (n: nat)
    ensures n <= |s| && forall i :: 0 <= i < n ==> s[i] != COLON
    ensures n < |s| ==> s[n] == COLON
  {
    if s == [] || s[0] == COLON then 0 else 1 + ColonAt(s[1..])
  }

  predicate AreDigits(s: seq<Byte>) { forall i :: 0 <= i < |s| ==> 48 <= s[i] <= 57 }

  function NumberOf(s: seq<Byte>): nat
    requires AreDigits(s)
  {
    if s == [] then 0 else 10 * NumberOf(s[..|s| - 1]) + (s[|s| - 1] - 48)
  }

  /** One field off the front of the stream. */
  function ReadField(s: seq<Byte>): Option<(seq<Byte>, seq<Byte>)> {
    var n := ColonAt(s);
    if n == |s| || !AreDigits(s[..n]) || n + 1 + NumberOf(s[..n]) > |s| then None
    else var end := n + 1 + NumberOf(s[..n]); Some((s[n + 1..end], s[end..]))
  }

  function Decode(s: seq<Byte>): Option<seq<Artifact>>
    decreases |s|
  {
    if s == [] then Some([])
    else
      match ReadField(s)
      case None => None
      case Some((path, afterPath)) =>
        match ReadField(afterPath)
        case None => None
        case Some((content, rest)) =>
          match Decode(rest)
          case None => None
          case Some(more) => Some([Artifact(path, content)] + more)
  }

  lemma {:induction false} NumberOfDigits(s: string)
    requires forall i :: 0 <= i < |s| ==> IsDigit(s[i])
    ensures AreDigits(DigitBytes(s)) && NumberOf(DigitBytes(s)) == Value(s)
  {
    if s != "" {
      var front := s[..|s| - 1];
      NumberOfDigits(front);
      assert DigitBytes(s)[..|s| - 1] == DigitBytes(front);
    }
  }

  lemma {:induction false} ColonAfterDigits(digits: seq<Byte>, rest: seq<Byte>)
    requires AreDigits(digits)
    ensures ColonAt(digits + [COLON] + rest) == |digits|
  {
    var s := digits + [COLON] + rest;
    if digits == [] {
      assert s[0] == COLON;
    } else {
      ColonAfterDigits(digits[1..], rest);
      assert s[1..] == digits[1..] + [COLON] + rest;
    }
  }

  lemma ReadFieldUndoesField(data: seq<Byte>, rest: seq<Byte>)
    ensures ReadField(Field(data) + rest) == Some((data, rest))
  {
    var digits := DigitBytes(Numeral(|data|));
    var s := digits + [COLON] + (data + rest);
    assert Field(data) + rest == s;
    NumberOfDigits(Numeral(|data|));
    ValueOfNumeral(|data|);
    ColonAfterDigits(digits, data + rest);
    assert s[..|digits|] == digits;
    var end := |digits| + 1 + |data|;
    assert s[|digits| + 1..end] == data && s[end..] == rest;
  }

  lemma {:induction false} DecodeOne(f: Artifact, rest: seq<Byte>, more: seq<Artifact>)
    requires Decode(rest) == Some(more)
    ensures Decode(Field(f.path) + (Field(f.content) + rest)) == Some([f] + more)
  {
    ReadFieldUndoesField(f.path, Field(f.content) + rest);
    ReadFieldUndoesField(f.content, rest);
    assert |Field(f.path)| > 0;
  }

  lemma {:induction false} EncodeCons(f: Artifact, more: seq<Artifact>)
    ensures Encode([f] + more) == Field(f.path) + (Field(f.content) + Encode(more))
  {
    assert ([f] + more)[1..] == more;
    Regroup(Field(f.path), Field(f.content), Encode(more));
  }

  lemma Regroup(a: seq<Byte>, b: seq<Byte>, c: seq<Byte>)
    ensures a + b + c == a + (b + c)
  {
  }

  /** The stream is uniquely decodable. */
  lemma {:induction false} DecodeUndoesEncode(files: seq<Artifact>)
    ensures Decode(Encode(files)) == Some(files)
  {
    if files != [] {
      var f, more := files[0], files[1..];
      assert [f] + more == files;
      DecodeUndoesEncode(more);
      DecodeOne(f, Encode(more), more);
      EncodeCons(f, more);
    }
  }

  // ------------------------------------------------------------- build records

  datatype Record = Record(fileCount: nat, digest: seq<Byte>)

  ghost predicate Injective(hash: seq<Byte> -> seq<Byte>) {
    forall a, b :: hash(a) == hash(b) ==> a == b
  }

  /** `clientArtifactDigest`; None is thrown when the build produced no artifact. */
  function DigestOf(hash: seq<Byte> -> seq<Byte>, files: seq<Artifact>): Option<Record> {
    if files == [] then None else Some(Record(|files|, hash(Encode(files))))
  }

  /** The comparison in `readClientBuildRecord`. */
  predicate Accepts(hash: seq<Byte> -> seq<Byte>, record: Record, current: seq<Artifact>) {
    match DigestOf(hash, current)
    case None => false
    case Some(now) => now.fileCount == record.fileCount && now.digest == record.digest
  }

  /** A recorded build is accepted exactly when its file list and contents are unchanged. */
  lemma AcceptedIffUnchanged(hash: seq<Byte> -> seq<Byte>, built: seq<Artifact>, current: seq<Artifact>)
    requires Injective(hash) && built != []
    ensures Accepts(hash, DigestOf(hash, built).value, current) <==> current == built
  {
    if Accepts(hash, DigestOf(hash, built).value, current) {
      DecodeUndoesEncode(built);
      DecodeUndoesEncode(current);
    }
  }
}
