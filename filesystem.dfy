/**
 * The receiver's file system, as the file writer and the file closer see it:
 * a map from file name to content. Opening with O_CREATE, WriteAt and Rename
 * are steps on that map; whether the operating system refuses a call is an
 * input to the step, not something the model decides.
 */
module FileSystem {
  import opened Wire

  /**
   * The content after File.WriteAt(data, off) with off >= 0: data lands at off,
   * a gap past the old end reads as zeros, and an empty write changes nothing.
   */
  function WriteAt(content: seq<Byte>, off: nat, data: seq<Byte>): (r: seq<Byte>)
    ensures data == [] ==> r == content
    ensures data != [] ==> |r| == if off + |data| > |content| then off + |data| else |content|
    ensures data != [] ==> r[off..off + |data|] == data
    ensures forall i | 0 <= i < |r| && !(off <= i < off + |data|) ::
              r[i] == if i < |content| then content[i] else 0
  {
    if data == [] then content
    else
      var head := if off <= |content| then content[..off] else content + Zeros(off - |content|);
      var tail := if off + |data| < |content| then content[off + |data|..] else [];
      head + data + tail
  }

  /** Later writes win where they overlap; writes to disjoint ranges commute. */
  lemma WritesCommute(content: seq<Byte>, o1: nat, d1: seq<Byte>, o2: nat, d2: seq<Byte>)
    requires o1 + |d1| <= o2 || o2 + |d2| <= o1
    ensures WriteAt(WriteAt(content, o1, d1), o2, d2) == WriteAt(WriteAt(content, o2, d2), o1, d1)
  {
    var a := WriteAt(WriteAt(content, o1, d1), o2, d2);
    var b := WriteAt(WriteAt(content, o2, d2), o1, d1);
    assert |a| == |b|;
    forall i | 0 <= i < |a| ensures a[i] == b[i] {
      if d1 != [] && o1 <= i < o1 + |d1| {
        assert a[i] == d1[i - o1] by { assert WriteAt(content, o1, d1)[o1..o1 + |d1|] == d1; }
        assert b[i] == d1[i - o1] by { assert b[o1..o1 + |d1|] == d1; }
      } else if d2 != [] && o2 <= i < o2 + |d2| {
        assert a[i] == d2[i - o2] by { assert a[o2..o2 + |d2|] == d2; }
        assert b[i] == d2[i - o2] by { assert WriteAt(content, o2, d2)[o2..o2 + |d2|] == d2; }
      }
    }
  }

  /** The file system: what each file name holds. */
  class Disk {
    var files: map<string, seq<Byte>>

    constructor (files: map<string, seq<Byte>>)
      ensures this.files == files
    {
      this.files := files;
    }

    /** The content a file name holds; a missing file reads as empty. */
    function Content(name: string): (r: seq<Byte>)
      reads this
      ensures name in files ==> r == files[name]
      ensures name !in files ==> r == []
    {
      if name in files then files[name] else []
    }

    /** os.OpenFile(name, O_RDWR|O_CREATE): a missing file is created empty, an existing one kept. */
    method Create(name: string)
      modifies this
      ensures files == old(files)[name := old(Content(name))]
    {
      if name !in files {
        files := files[name := []];
      }
    }

    /** File.WriteAt on an open file with a non-negative offset. */
    method Write(name: string, off: nat, data: seq<Byte>)
      requires name in files
      modifies this
      ensures files == old(files)[name := WriteAt(old(files)[name], off, data)]
    {
      files := files[name := WriteAt(files[name], off, data)];
    }

    /** os.Rename(from, to): to now holds what from held, and from is gone. */
    method Rename(from: string, to: string)
      requires from in files
      modifies this
      ensures files == (old(files) - {from})[to := old(files)[from]]
    {
      files := (files - {from})[to := files[from]];
    }
  }
}
