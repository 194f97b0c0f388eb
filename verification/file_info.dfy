/** The backend's file record (model/FileInfo.java): a mutable bean whose
    equality and hash code depend only on the content hash and the size. */
module FileInfoModel {
  import opened Wrappers
  import opened Strings

  /** Java `long`. */
  type Long = x: int | -0x8000_0000_0000_0000 <= x < 0x8000_0000_0000_0000

  /** A `LocalDateTime`, reduced to an opaque instant number. */
  type Instant = int

  /** Java `int` arithmetic: the two's-complement value of `x` modulo 2^32. */
  function Wrap32(x: int): (r: int)
    ensures -0x8000_0000 <= r < 0x8000_0000
    ensures (r - x) % 0x1_0000_0000 == 0
  {
    (x + 0x8000_0000) % 0x1_0000_0000 - 0x8000_0000
  }

  /** `String.hashCode`: h = 31*h + c over the characters, in `int` arithmetic. */
  function StringHashCode(s: string): (r: int)
    ensures -0x8000_0000 <= r < 0x8000_0000
  {
    if s == [] then 0 else Wrap32(31 * StringHashCode(s[..|s| - 1]) + s[|s| - 1] as int)
  }

  /** `Long.hashCode(v)`: the low 32 bits of `v ^ (v >>> 32)`, read as a signed `int`. */
  function LongHashCode(v: Long): (r: int)
    ensures -0x8000_0000 <= r < 0x8000_0000
  {
    var bits := (if v < 0 then v + 0x1_0000_0000_0000_0000 else v) as bv64;
    var low := ((bits ^ (bits >> 32)) & 0xFFFF_FFFF) as int;
    if low >= 0x8000_0000 then low - 0x1_0000_0000 else low
  }

  /** The extension rule shared by `FileInfo.getExtension` and
      `FileScanService.getFileExtension`: the lower-cased text after the last
      dot when that dot is not the first character, and "" otherwise. */
  function ExtensionOf(fileName: string): (r: string)
    ensures '.' !in r
    ensures (exists d :: 0 < d < |fileName| && fileName[d] == '.') ==>
              |r| < |fileName| && fileName[|fileName| - |r| - 1] == '.' &&
              r == ToLower(fileName[|fileName| - |r|..])
    ensures (forall d :: 0 < d < |fileName| ==> fileName[d] != '.') ==> r == ""
  {
    var lastDot := LastIndexOf(fileName, '.');
    if lastDot > 0 then ToLower(fileName[lastDot + 1..]) else ""
  }

  class FileInfo {
    const filePath: string
    const fileName: string
    const hash: Option<string>    // null when no hash could be computed
    const size: Long
    var category: Option<string>  // null until the file is categorised
    const createdTime: Instant
    var isDuplicate: bool
    var markedForDeletion: bool

    /** `FileInfo(filePath, fileName, hash, size)`: the creation time is the
        clock reading `now`, supplied by the caller. */
    constructor (filePath: string, fileName: string, hash: Option<string>, size: Long, now: Instant)
      ensures this.filePath == filePath && this.fileName == fileName
      ensures this.hash == hash && this.size == size && createdTime == now
      ensures category == None && !isDuplicate && !markedForDeletion
    {
      this.filePath := filePath;
      this.fileName := fileName;
      this.hash := hash;
      this.size := size;
      this.category := None;
      this.createdTime := now;
      this.isDuplicate := false;
      this.markedForDeletion := false;
    }

    /** `FileInfo(filePath, fileName, hash, size, createdTime)`. */
    constructor WithCreatedTime(filePath: string, fileName: string, hash: Option<string>, size: Long,
                                createdTime: Instant)
      ensures this.filePath == filePath && this.fileName == fileName
      ensures this.hash == hash && this.size == size && this.createdTime == createdTime
      ensures category == None && !isDuplicate && !markedForDeletion
    {
      this.filePath := filePath;
      this.fileName := fileName;
      this.hash := hash;
      this.size := size;
      this.category := None;
      this.createdTime := createdTime;
      this.isDuplicate := false;
      this.markedForDeletion := false;
    }

    method SetDuplicate(duplicate: bool)
      modifies this`isDuplicate
      ensures isDuplicate == duplicate
    {
      isDuplicate := duplicate;
    }

    method SetCategory(category: string)
      modifies this`category
      ensures this.category == Some(category)
    {
      this.category := Some(category);
    }

    method SetMarkedForDeletion(marked: bool)
      modifies this`markedForDeletion
      ensures markedForDeletion == marked
    {
      markedForDeletion := marked;
    }

    /** `getExtension`: the same rule the scan service uses for file names. */
    function Extension(): (r: string)
      ensures r == ExtensionOf(fileName)
    {
      var lastDot := LastIndexOf(fileName, '.');
      if lastDot > 0 then ToLower(fileName[lastDot + 1..]) else ""
    }

    /** `getLastModified`: the creation time stands in for it. */
    function LastModified(): (t: Instant)
      ensures t == createdTime
    {
      createdTime
    }

    /** `equals(Object)`: identity, or equal size and (null-safe) equal hash. */
    predicate Equals(o: FileInfo?)
      ensures Equals(o) ==> o != null && HashCode() == o.HashCode()
      ensures o != null && o != this ==> (Equals(o) <==> size == o.size && hash == o.hash)
    {
      if this == o then true
      else if o == null then false
      else size == o.size && hash == o.hash
    }

    /** `hashCode`: `Objects.hash(hash, size)`, which is 31 * (31 + h(hash)) + h(size). */
    function HashCode(): (r: int)
      ensures -0x8000_0000 <= r < 0x8000_0000
    {
      var hashPart := match hash case None => 0 case Some(h) => StringHashCode(h);
      Wrap32(31 * Wrap32(31 * 1 + hashPart) + LongHashCode(size))
    }

    /** `isContentDuplicate`: another, non-null record with the same hash and size. */
    predicate IsContentDuplicate(other: FileInfo?)
      ensures IsContentDuplicate(other) <==> other != null && other != this && Equals(other)
    {
      if other == null then false
      else if this == other then false
      else if hash != other.hash then false
      else if size != other.size then false
      else true
    }
  }

  /** `equals` is an equivalence on non-null records. */
  lemma EqualsIsEquivalence(a: FileInfo, b: FileInfo, c: FileInfo)
    ensures a.Equals(a)
    ensures a.Equals(b) ==> b.Equals(a)
    ensures a.Equals(b) && b.Equals(c) ==> a.Equals(c)
  {
  }

  /** `isContentDuplicate` is symmetric, and on two distinct records agrees with `equals`. */
  lemma ContentDuplicateSymmetric(a: FileInfo, b: FileInfo)
    ensures a.IsContentDuplicate(b) <==> b.IsContentDuplicate(a)
    ensures a != b ==> (a.IsContentDuplicate(b) <==> a.Equals(b))
    ensures !a.IsContentDuplicate(a)
  {
  }

  /** Two distinct records are equal, and content duplicates, exactly when
      their size and hash agree: the path plays no part. */
  lemma EqualsIgnoresPath(a: FileInfo, b: FileInfo)
    requires a != b
    ensures a.Equals(b) <==> a.size == b.size && a.hash == b.hash
    ensures a.IsContentDuplicate(b) <==> a.size == b.size && a.hash == b.hash
  {
  }
}
