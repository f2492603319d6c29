/** With Steim-2 no way of cutting the samples into records of the same size needs fewer of them. */
module PackOptimal {
  import opened Wrappers
  import opened PackData
  import opened PackLoop
  import opened Pack3
  import opened SteimWords
  import opened SteimFormat
  import opened SteimGreedy

  /** A Steim-2 payload that some packer might write, and how many samples it holds. */
  datatype Piece = Piece(ws: seq<bv32>, count: nat, swap: bool)

  function Total(pieces: seq<Piece>): nat {
    if pieces == [] then 0 else Total(pieces[..|pieces| - 1]) + pieces[|pieces| - 1].count
  }

  /** The piece is read as the samples from a on and has at most so many frames. */
  ghost predicate PieceIs(xs: seq<bv32>, piece: Piece, a: nat, frames: nat) {
    && a + piece.count <= |xs| && 16 <= |piece.ws| <= 16 * frames
    && PayloadSamples(Steim2, piece.ws, piece.count, piece.swap) == Some(xs[a..a + piece.count])
  }

  /** The pieces hold the samples one after the other. */
  ghost predicate Pieces(xs: seq<bv32>, pieces: seq<Piece>, frames: nat) {
    forall j | 0 <= j < |pieces| :: PieceIs(xs, pieces[j], Total(pieces[..j]), frames)
  }

  /** After as many records the packer is at least as far as any other. */
  lemma {:induction false} AheadOfPieces(m: Msr, records: seq<seq<Bytes.Byte>>, parts: seq<Part>, pieces: seq<Piece>, j: nat)
    requires Emitted(m, records, parts) && m.encoding == Steim(Steim2) && m.data.Ints? && HeaderLength(m) <= m.reclen
    requires Pieces(m.data.xs, pieces, (m.reclen - HeaderLength(m)) / 64) && j <= |parts| && j <= |pieces|
    ensures Total(pieces[..j]) <= Sum(parts[..j])
  {
    hide PieceIs, PartIs, PackCount, Differences, Reach, Total, Sum;
    Prefixes(parts, pieces, j);
    if j > 0 {
      AheadOfPieces(m, records, parts, pieces, j - 1);
      var a, p := Total(pieces[..j - 1]), Sum(parts[..j - 1]);
      CountOf(m, records[j - 1], p, parts[j - 1]);
      AheadStep(m.data.xs, pieces[j - 1], a, p, m.reclen - HeaderLength(m));
    }
  }

  lemma Prefixes(parts: seq<Part>, pieces: seq<Piece>, j: nat)
    requires j <= |parts| && j <= |pieces|
    ensures j == 0 ==> Total(pieces[..j]) == 0 && Sum(parts[..j]) == 0
    ensures j > 0 ==> Total(pieces[..j]) == Total(pieces[..j - 1]) + pieces[j - 1].count && Sum(parts[..j]) == Sum(parts[..j - 1]) + parts[j - 1].count
  {
    if j > 0 {
      assert pieces[..j][..j - 1] == pieces[..j - 1] && parts[..j][..j - 1] == parts[..j - 1];
    }
  }

  lemma CountOf(m: Msr, bs: seq<Bytes.Byte>, before: nat, part: Part)
    requires PartIs(m, bs, before, part) && HeaderLength(m) <= m.reclen
    ensures before < Size(m.data) && part.count == PackCount(Drop(m.data, before), m.reclen - HeaderLength(m), m.encoding)
  {
    hide PackCount, IsPayload, Record3.IsRecord;
  }

  lemma AheadStep(xs: seq<bv32>, piece: Piece, a: nat, p: nat, maxdatabytes: nat)
    requires PieceIs(xs, piece, a, maxdatabytes / 64) && a <= p < |xs|
    requires PackCount(Ints(xs[p..]), maxdatabytes, Steim(Steim2)) >= 0
    ensures a + piece.count <= p + PackCount(Ints(xs[p..]), maxdatabytes, Steim(Steim2))
  {
    hide PayloadSamples, Reach, DataSlots, Differences, Stuck;
    if a + piece.count > p {
      var frames := maxdatabytes / 64;
      GetsAsFar(xs, piece.ws, a, a + piece.count, p, piece.swap);
      DataSlotsMonotone(|piece.ws|, 16 * frames);
      ReachMonotone(Steim2, Differences(xs[p..], 0), DataSlots(|piece.ws|), DataSlots(16 * frames));
    }
  }

  /** Any pieces that hold all the samples are at least as many as the records the packer makes. */
  lemma FewestRecords(m: Msr, records: seq<seq<Bytes.Byte>>, parts: seq<Part>, pieces: seq<Piece>)
    requires Emitted(m, records, parts) && m.encoding == Steim(Steim2) && m.data.Ints? && HeaderLength(m) <= m.reclen
    requires Sum(parts) == Size(m.data)
    requires Pieces(m.data.xs, pieces, (m.reclen - HeaderLength(m)) / 64) && Total(pieces) == |m.data.xs|
    ensures |records| <= |pieces|
  {
    hide PartIs, PieceIs, Pieces;
    var j := |pieces|;
    assert pieces[..j] == pieces;
    if j < |parts| {
      CountOf(m, records[j], Sum(parts[..j]), parts[j]);
      AheadOfPieces(m, records, parts, pieces, j);
    }
  }
}
