/** The boot record in sector 0: the geometry `format` derives from the volume size,
    the number of root-directory slots and the sectors per cluster. */
module BootRecord {
  import opened Common

  const BytesPerSector: nat := 512
  /** The boot record occupies one reserved sector. */
  const ReservedSectors: nat := 1
  /** Each root-directory slot takes 32 bytes on disk. */
  const EntryBytes: nat := 32
  /** Each FAT entry takes 2 bytes on disk. */
  const FatEntryBytes: nat := 2
  /** The largest cluster count whose FAT size, in sectors, still fits the 16-bit field. */
  const MaxFatClusters: nat := 0xFFFF * 256

  /** `char volumeLabel[4]` after `strncpy(label, "FAT", 4)`. */
  const Label: seq<char> := ['F', 'A', 'T', '\0']

  datatype BootRecord = BootRecord(
    bytesPerSector: U16,
    sectorsPerCluster: U8,
    numberOfFATs: U8,
    rootEntryCount: U16,
    sectorsPerFAT: U16,
    volumeLabel: seq<char>)

  /** The record a fresh manager holds before any `format`. */
  const Default := BootRecord(512, 1, 1, 0, 0, Label)

  /** Sectors taken by the root directory: its bytes rounded up to whole sectors. */
  function RootDirSectors(rootEntryCount: U16): (r: nat)
    ensures r * BytesPerSector >= rootEntryCount * EntryBytes
    ensures r == 0 || (r - 1) * BytesPerSector < rootEntryCount * EntryBytes
    ensures r <= 4096
  {
    (rootEntryCount * EntryBytes + BytesPerSector - 1) / BytesPerSector
  }

  /** `totalSectors - reservedSectors - rootDirSectors` in `uint32_t` arithmetic. */
  function DataSectors(totalSectors: U32, rootEntryCount: U16): (r: U32) {
    (totalSectors - ReservedSectors - RootDirSectors(rootEntryCount)) % U32Modulus
  }

  /** The subtraction is exact when the volume holds the reserved and root-directory
      sectors, and otherwise wraps to a count larger than the volume itself. */
  lemma DataSectorsWrap(totalSectors: U32, rootEntryCount: U16)
    ensures var overhead := ReservedSectors + RootDirSectors(rootEntryCount);
      && (totalSectors >= overhead ==> DataSectors(totalSectors, rootEntryCount) == totalSectors - overhead)
      && (totalSectors < overhead ==> DataSectors(totalSectors, rootEntryCount) == totalSectors - overhead + U32Modulus)
      && (DataSectors(totalSectors, rootEntryCount) > totalSectors <==> totalSectors < overhead)
  {
  }

  /** `dataSectors / sectorsPerCluster`: the clusters `format` creates. */
  function Clusters(totalSectors: U32, rootEntryCount: U16, sectorsPerCluster: U8): (r: U32)
    requires sectorsPerCluster >= 1
  {
    DataSectors(totalSectors, rootEntryCount) / sectorsPerCluster
  }

  /** The clusters fill the data sectors as far as whole clusters go. */
  lemma ClustersFillData(totalSectors: U32, rootEntryCount: U16, sectorsPerCluster: U8)
    requires sectorsPerCluster >= 1
    ensures var d := DataSectors(totalSectors, rootEntryCount);
      var c := Clusters(totalSectors, rootEntryCount, sectorsPerCluster);
      c * sectorsPerCluster <= d < c * sectorsPerCluster + sectorsPerCluster
  {
    var d := DataSectors(totalSectors, rootEntryCount);
    assert d == (d / sectorsPerCluster) * sectorsPerCluster + d % sectorsPerCluster;
  }

  /** `(clusters * 2 + 511) / 512` computed in `uint32_t`, stored in the 16-bit field. */
  function SectorsPerFat(clusters: U32): (r: U16) {
    (((clusters * FatEntryBytes) % U32Modulus + BytesPerSector - 1) % U32Modulus / BytesPerSector) % U16Modulus
  }

  /** Up to `MaxFatClusters` clusters, the FAT field is the table's size rounded up to
      whole sectors. */
  lemma SectorsPerFatCoversTable(clusters: U32)
    requires clusters <= MaxFatClusters
    ensures SectorsPerFat(clusters) * BytesPerSector >= clusters * FatEntryBytes
    ensures SectorsPerFat(clusters) == 0 || (SectorsPerFat(clusters) - 1) * BytesPerSector < clusters * FatEntryBytes
  {
    var x := clusters * 2;
    assert clusters * FatEntryBytes == x;
    assert x % U32Modulus == x;
    assert (x + BytesPerSector - 1) % U32Modulus == x + 511;
    var q, r := (x + 511) / 512, (x + 511) % 512;
    assert x + 511 == q * 512 + r;
    assert q < U16Modulus;
    assert q % U16Modulus == q;
  }

  /** Past `MaxFatClusters` the 16-bit field wraps: a table of `2^24` clusters is
      recorded as taking no sector at all. */
  lemma SectorsPerFatTruncates()
    ensures 0x100_0000 * FatEntryBytes > 0
    ensures SectorsPerFat(0x100_0000) == 0
  {
    assert (0x100_0000 * FatEntryBytes + BytesPerSector - 1) / BytesPerSector == U16Modulus;
  }

  /** The record `format(totalSectors, rootEntryCount, sectorsPerCluster)` leaves. */
  function Formatted(totalSectors: U32, rootEntryCount: U16, sectorsPerCluster: U8): (r: BootRecord)
    requires sectorsPerCluster >= 1
  {
    BootRecord(BytesPerSector, sectorsPerCluster, 1, rootEntryCount,
               SectorsPerFat(Clusters(totalSectors, rootEntryCount, sectorsPerCluster)), Label)
  }

  /** A 1000-sector volume with 16 root slots and one sector per cluster: one root-directory
      sector, 998 clusters and a 4-sector FAT. */
  lemma FormatExample()
    ensures RootDirSectors(16) == 1 && Clusters(1000, 16, 1) == 998
    ensures Formatted(1000, 16, 1) == BootRecord(512, 1, 1, 16, 4, Label)
  {
  }

  // ---------------------------------------------------------------------------
  // Layout of the image

  /** Byte offset of the root directory: after the boot sector and the FATs. */
  function RootDirOffset(br: BootRecord): (r: nat)
    ensures r >= BytesPerSector
    ensures r % BytesPerSector == 0
  {
    (ReservedSectors + br.numberOfFATs * br.sectorsPerFAT) * BytesPerSector
  }

  /** Byte offset of the data area: right after the root directory's slots, not rounded
      to a sector. */
  function DataAreaOffset(br: BootRecord): (r: nat)
    ensures r >= RootDirOffset(br) + br.rootEntryCount * EntryBytes
  {
    RootDirOffset(br) + br.rootEntryCount * EntryBytes
  }

  /** The byte just past the data area that `format` lays out. */
  function DataAreaEnd(totalSectors: U32, rootEntryCount: U16, sectorsPerCluster: U8): nat
    requires sectorsPerCluster >= 1
  {
    DataAreaOffset(Formatted(totalSectors, rootEntryCount, sectorsPerCluster))
      + Clusters(totalSectors, rootEntryCount, sectorsPerCluster) * sectorsPerCluster * BytesPerSector
  }

  /** The FAT sectors are never subtracted from the data sectors, so with one sector per
      cluster the data area runs past the end of a `totalSectors`-sector image. */
  lemma DataAreaPastImage(totalSectors: U32, rootEntryCount: U16)
    requires totalSectors >= ReservedSectors + RootDirSectors(rootEntryCount)
    requires 1 <= Clusters(totalSectors, rootEntryCount, 1) <= MaxFatClusters
    ensures DataAreaEnd(totalSectors, rootEntryCount, 1) > totalSectors * BytesPerSector
  {
    var c := Clusters(totalSectors, rootEntryCount, 1);
    DataSectorsWrap(totalSectors, rootEntryCount);
    SectorsPerFatCoversTable(c);
  }

  /** On a volume that holds its reserved and root-directory sectors, the data area as
      written overruns the image by at most the FAT's own sectors. */
  lemma DataAreaOverrunBound(totalSectors: U32, rootEntryCount: U16, sectorsPerCluster: U8)
    requires sectorsPerCluster >= 1
    requires totalSectors >= ReservedSectors + RootDirSectors(rootEntryCount)
    ensures var br := Formatted(totalSectors, rootEntryCount, sectorsPerCluster);
      DataAreaEnd(totalSectors, rootEntryCount, sectorsPerCluster) <= (totalSectors + br.sectorsPerFAT) * BytesPerSector
  {
    var k := sectorsPerCluster;
    var rds := RootDirSectors(rootEntryCount);
    var d: nat := DataSectors(totalSectors, rootEntryCount);
    var c: nat := Clusters(totalSectors, rootEntryCount, k);
    DataSectorsWrap(totalSectors, rootEntryCount);
    ClustersFillData(totalSectors, rootEntryCount, k);
    MulMono(c * k, d, 512);
    assert totalSectors == 1 + rds + d;
    assert totalSectors * 512 == 512 + rds * 512 + d * 512;
  }

  /** The cluster count with the FAT's own sectors set aside as well. */
  function CorrectedClusters(totalSectors: U32, rootEntryCount: U16, sectorsPerCluster: U8): (r: nat)
    requires sectorsPerCluster >= 1
  {
    var spf := SectorsPerFat(Clusters(totalSectors, rootEntryCount, sectorsPerCluster));
    var d := DataSectors(totalSectors, rootEntryCount);
    if d >= spf then (d - spf) / sectorsPerCluster else 0
  }

  /** With the FAT's sectors set aside, the data area ends inside the image, and the FAT
      sized for the uncorrected count still has an entry for every cluster. */
  lemma CorrectedLayoutFits(totalSectors: U32, rootEntryCount: U16, sectorsPerCluster: U8)
    requires sectorsPerCluster >= 1
    requires totalSectors >= ReservedSectors + RootDirSectors(rootEntryCount)
    requires Clusters(totalSectors, rootEntryCount, sectorsPerCluster) <= MaxFatClusters
    ensures var br := Formatted(totalSectors, rootEntryCount, sectorsPerCluster);
      var c := CorrectedClusters(totalSectors, rootEntryCount, sectorsPerCluster);
      && DataAreaOffset(br) + BytesPerSector * sectorsPerCluster * c <= totalSectors * BytesPerSector
      && c * FatEntryBytes <= br.sectorsPerFAT * BytesPerSector
  {
    var k := sectorsPerCluster;
    var rds := RootDirSectors(rootEntryCount);
    var d := DataSectors(totalSectors, rootEntryCount);
    var spf := SectorsPerFat(Clusters(totalSectors, rootEntryCount, k));
    var c := CorrectedClusters(totalSectors, rootEntryCount, k);
    DataSectorsWrap(totalSectors, rootEntryCount);
    CorrectedCountBounds(totalSectors, rootEntryCount, k);
    var e := d - spf;
    MulMono(c * k, e, 512);
    MulComm(k, c);
    assert totalSectors == 1 + rds + spf + e;
    assert totalSectors * 512 == 512 + rds * 512 + spf * 512 + e * 512;
  }

  /** The FAT's sectors fit in the data sectors, the corrected clusters fill what is left as
      far as whole clusters go, and there are no more of them than uncorrected ones. */
  lemma CorrectedCountBounds(totalSectors: U32, rootEntryCount: U16, sectorsPerCluster: U8)
    requires sectorsPerCluster >= 1
    requires Clusters(totalSectors, rootEntryCount, sectorsPerCluster) <= MaxFatClusters
    ensures var d := DataSectors(totalSectors, rootEntryCount);
      var c0 := Clusters(totalSectors, rootEntryCount, sectorsPerCluster);
      var spf := SectorsPerFat(c0);
      var c := CorrectedClusters(totalSectors, rootEntryCount, sectorsPerCluster);
      && spf <= d && c * sectorsPerCluster <= d - spf && c <= c0
      && c0 * FatEntryBytes <= spf * BytesPerSector
  {
    var k := sectorsPerCluster;
    var d := DataSectors(totalSectors, rootEntryCount);
    var c0 := Clusters(totalSectors, rootEntryCount, k);
    var spf := SectorsPerFat(c0);
    var c := CorrectedClusters(totalSectors, rootEntryCount, k);
    SectorsPerFatCoversTable(c0);
    ClustersFillData(totalSectors, rootEntryCount, k);
    MulMono(1, k, c0);
    assert spf <= d;
    var e := d - spf;
    DivMulBound(e, k);
    DivMono(e, d, k);
  }

  lemma MulComm(k: nat, c: nat)
    ensures BytesPerSector * k * c == c * k * 512
  {
  }

  lemma MulMono(a: nat, b: nat, k: nat)
    requires a <= b
    ensures a * k <= b * k
  {
  }

  lemma DivMulBound(e: nat, k: nat)
    requires k >= 1
    ensures (e / k) * k <= e
  {
  }

  lemma DivMono(a: nat, b: nat, k: nat)
    requires a <= b && k >= 1
    ensures a / k <= b / k
  {
    DivMulBound(a, k);
    assert b == (b / k) * k + b % k;
    if a / k > b / k {
      MulMono(b / k + 1, a / k, k);
    }
  }

  // ---------------------------------------------------------------------------
  // The manager

  class BootRecordManager {
    var bootRecord: BootRecord

    /** 512-byte sectors, one sector per cluster, one FAT, no root slots, label "FAT". */
    constructor ()
      ensures bootRecord == Default
    {
      bootRecord := Default;
    }

    /** Derives the geometry from the volume size; the division by `sectorsPerCluster`
        needs it non-zero. */
    method Format(totalSectors: U32, rootEntryCount: U16, sectorsPerCluster: U8)
      requires sectorsPerCluster >= 1
      modifies this
      ensures bootRecord == Formatted(totalSectors, rootEntryCount, sectorsPerCluster)
    {
      var rootDirSectors := (rootEntryCount * EntryBytes + BytesPerSector - 1) / BytesPerSector;
      var dataSectors := (totalSectors - ReservedSectors - rootDirSectors) % U32Modulus;
      var clusters := dataSectors / sectorsPerCluster;
      var fatSizeBytes := (clusters * FatEntryBytes) % U32Modulus;
      var sectorsPerFat := ((fatSizeBytes + BytesPerSector - 1) % U32Modulus / BytesPerSector) % U16Modulus;
      bootRecord := BootRecord(BytesPerSector, sectorsPerCluster, 1, rootEntryCount, sectorsPerFat, Label);
    }

    function GetBootRecord(): (r: BootRecord)
      reads this
      ensures r == bootRecord
    {
      bootRecord
    }
  }
}
