/** Loading a program by its path: from the bytes of a mounted volume to the bytes that the
    process sees. */
module Loader {
  import opened Memory
  import opened Wrappers
  import opened HeapSpec
  import opened Machine
  import opened Paging
  import opened UserMemory
  import opened AddressSpace
  import opened Streamer
  import opened TaskList
  import opened Geometry
  import opened Fat16Format
  import opened Directory
  import opened Files
  import opened Process
  import F = Fat16Read

  /** The bytes that a process sees from 0x400000 on are those of the file's chain, if these
      lie before byte 2^31 of the disk. */
  ghost predicate SeesFile(m: Ram, x: Loaded, v: Mount, file: File) {
    && x.chunk + 4 <= LIMIT && PROGRAM_ADDRESS + file.size <= LIMIT
    && (F.BytesBelow(VolumeOf(v), file.firstCluster, 0, file.size) ==>
          forall i :: 0 <= i < file.size ==>
            F.ChainByte(VolumeOf(v), file.firstCluster, i)
            == Some(ByteAt(m, DirectoryOf(m, x.chunk), PROGRAM_ADDRESS + i)))
  }

  lemma ChainSeen(table: ProcessTable, h: HeapState, m: Ram, i: nat, v: Mount, file: File)
    requires table.Holds(h, m) && i in table.loaded && IsFile(v, file, table.loaded[i].file)
    ensures SeesFile(m, table.loaded[i], v, file)
  {
    hide InMemory, ByteAt, DirectoryOf, F.ChainByte, F.BytesBelow, VolumeOf;
    var x := table.loaded[i];
    LoadedBounds(h, m, x);
    if F.BytesBelow(VolumeOf(v), file.firstCluster, 0, file.size) {
      forall j | 0 <= j < file.size
        ensures F.ChainByte(VolumeOf(v), file.firstCluster, j)
          == Some(ByteAt(m, DirectoryOf(m, x.chunk), PROGRAM_ADDRESS + j))
      {
        ProgramSeen(h, m, x, j);
        assert F.ChainByte(VolumeOf(v), file.firstCluster, 0 + j) == Some(x.file[j]);
      }
    }
  }

  /** The bytes that a process sees from 0x400000 on are those that the format puts in the
      file whose first cluster is the given one. */
  ghost predicate SeesFormatFile(m: Ram, x: Loaded, v: Mount, file: File) {
    && x.chunk + 4 <= LIMIT && PROGRAM_ADDRESS + file.size <= LIMIT
    && forall i :: 0 <= i < file.size ==>
         FormatByte(v.disk, v.header, file.firstCluster, i)
         == Some(ByteAt(m, DirectoryOf(m, x.chunk), PROGRAM_ADDRESS + i))
  }

  /** The file needs one cluster, its bytes lie before byte 2^31 of the disk, and the root
      directory fills its sectors. */
  ghost predicate OneCluster(v: Mount, file: File) {
    && RootFull(v.header) && LayoutOf(v) == HeaderLayout(v.header)
    && file.size <= F.ClusterBytes(LayoutOf(v))
    && F.BytesBelow(VolumeOf(v), file.firstCluster, 0, file.size)
  }

  /** For such a file the two are the same. */
  lemma OneClusterSeen(m: Ram, x: Loaded, v: Mount, file: File)
    requires OneCluster(v, file)
    ensures SeesFile(m, x, v, file) <==> SeesFormatFile(m, x, v, file)
  {
    hide ByteAt, DirectoryOf, F.ChainByte, F.BytesBelow, FormatByte, LayoutOf, F.OnDisk;
    forall i | 0 <= i < file.size
      ensures FormatByte(v.disk, v.header, file.firstCluster, i)
        == F.ChainByte(VolumeOf(v), file.firstCluster, i)
    {
      Inside(LayoutOf(v), i);
      FirstByte(v.disk, v.header, file.firstCluster, i);
    }
  }

  /** process_load of a path on a mounted volume. The file is that of the slot that the
      lookup finds, and the one that the path means whenever the lookup is not misled. */
  method LoadPath(k: Machine, v: Mount, fatStream: DiskStream, stream: DiskStream, tasks: List, table: ProcessTable,
                  path: seq<Byte>, ghost n: nat)
    returns (r: int, process: Process?)
    requires k.Valid() && tasks.Valid() && table.Holds(k.HeapNow(), k.ram)
    requires Mounted(v, n) && 0 !in path && PathSafe(v, path)
    requires |table.loaded| < MAX_PROCESSES ==> LoadSound(k.HeapNow(), v, path)
    modifies k`ram, k.heap, k.heap.entries, fatStream, stream, tasks, tasks.nodes, table, table.slots
    ensures k.Valid() && tasks.Valid() && table.Holds(k.HeapNow(), k.ram)
    ensures r == 0 <==> |old(table.loaded)| < MAX_PROCESSES && CanLoad(old(k.HeapNow()), v, path)
    ensures PathAgrees(v, n, path) ==> Opened(v, path) == Meant(v, n, path)
    ensures forall i :: i in old(table.loaded) ==> i in table.loaded && table.loaded[i] == old(table.loaded[i])
    ensures r == 0 ==> process != null && process.id in table.loaded && Opened(v, path).Some?
    ensures r == 0 ==> SeesFile(k.ram, table.loaded[process.id], v, Opened(v, path).value)
    ensures r == 0 && OneCluster(v, Opened(v, path).value) ==>
      SeesFormatFile(k.ram, table.loaded[process.id], v, Opened(v, path).value)
  {
    hide Opened, Meant, Mounted, LoadSound, CanLoad, IsFile, SeesFile, PathSafe, PathAgrees, ProcessTable.Holds;
    hide OneCluster, SeesFormatFile;
    r, process := ProcessLoad(k, v, fatStream, stream, tasks, table, path);
    if r == 0 {
      ChainSeen(table, k.HeapNow(), k.ram, process.id, v, Opened(v, path).value);
      if OneCluster(v, Opened(v, path).value) {
        OneClusterSeen(k.ram, table.loaded[process.id], v, Opened(v, path).value);
      }
    }
    if PathAgrees(v, n, path) { OpensMeant(v, n, path); }
  }
}
