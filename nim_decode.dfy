/**
 * The server allocates NIMs and the client decodes them: the metadata the
 * client reads back from an allocated NIM is the cohort the server built
 * its prefix from.
 */
module NimDecode {
  import opened Text
  import opened NimAllocator
  import opened StudentData

  /** The codes of a cohort whose prefix has the shape the client's decoder expects. */
  predicate WellFormedCohort(facultyCode: string, jenjangCode: string, prodiCode: string, angkatan: string) {
    && |facultyCode| == 1 && IsAsciiLetter(facultyCode[0])
    && |jenjangCode| == 1 && IsDigit(jenjangCode[0])
    && |prodiCode| == 1 && IsDigit(prodiCode[0])
    && |angkatan| == 2 && IsDigit(angkatan[0]) && IsDigit(angkatan[1])
  }

  /**
   * Whatever the store already holds, the NIM `Create` allocates for a
   * well-formed cohort decodes to that cohort, with the faculty letter
   * upper-cased.
   */
  lemma DecodeAllocated(f: string, j: string, p: string, a: string, nims: seq<string>)
    requires WellFormedCohort(f, j, p, a)
    ensures DecodeNimMetadata(AllocateNim(Prefix(f, j, p, a), nims)) == NimMetadata(Fold(f), j, p, a)
  {
    var prefix := Prefix(f, j, p, a);
    var nim := AllocateNim(prefix, nims);
    assert |prefix| == 5;
    assert nim[..5] == prefix;
    assert nim[0] == f[0] && nim[1..2] == j && nim[2..3] == p && nim[3..5] == a;
    assert Fold(f) == [FoldChar(f[0])];
  }

  /** For an upper-case faculty letter, the decoded codes are the allocating cohort's own. */
  lemma DecodeAllocatedUpper(f: string, j: string, p: string, a: string, nims: seq<string>)
    requires WellFormedCohort(f, j, p, a) && 'A' <= f[0] <= 'Z'
    ensures DecodeNimMetadata(AllocateNim(Prefix(f, j, p, a), nims)) == NimMetadata(f, j, p, a)
  {
    DecodeAllocated(f, j, p, a, nims);
    assert Fold(f) == f;
  }
}
