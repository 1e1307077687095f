/** SFSHistoDataProcessor.start: runs the per-file pipeline over the file
    names, one after the other (sfs_processing.py:13-15, 29-32, 101-107,
    129-135). The input directory is given as its already-parsed files, keyed
    by path, and the output directory as the map of tables written to it. */
module Batch {
  import opened Tables
  import opened Outcomes
  import opened Pipeline

  /** The processor is built with one file name or a list of them. */
  datatype FileNames = One(name: string) | Many(names: seq<string>)

  datatype Processor = Processor(fileNames: FileNames, inputDir: string, config: Option<ColumnSpec>)

  /** Exports always go to this directory, whatever the input directory. */
  const OutputDir: string := "outputs"

  /** Parsed input files, keyed by path. */
  type Disk = map<string, Table>

  /** Every file the reader can open parses to a valid table. */
  predicate Readable(disk: Disk) {
    forall path :: path in disk ==> Valid(disk[path])
  }

  function InputPath(p: Processor, name: string): string {
    p.inputDir + "/" + name
  }

  function OutputPath(name: string): string {
    OutputDir + "/" + name
  }

  /** Different file names are exported to different paths. */
  lemma OutputPathInjective(a: string, b: string)
    requires OutputPath(a) == OutputPath(b)
    ensures a == b
  {
    var prefix := OutputDir + "/";
    assert a == OutputPath(a)[|prefix|..];
    assert b == OutputPath(b)[|prefix|..];
  }

  /** The names `start` walks through, in order. */
  function Queue(p: Processor): seq<string> {
    match p.fileNames
    case One(name) => [name]
    case Many(names) => names
  }

  /** read_csv followed by the pipeline: a missing path is a read failure. */
  function ProcessFile(p: Processor, disk: Disk, name: string): (r: Result<Table>)
    requires Readable(disk)
    ensures InputPath(p, name) !in disk <==> r == Err(FileNotFound(InputPath(p, name)))
    ensures r.Ok? ==> p.config.Some? && r.value.columns == p.config.value.reorderedColumns
  {
    var path := InputPath(p, name);
    if path !in disk then Err(FileNotFound(path)) else Process(p.config, disk[path])
  }

  /** The per-file step as a function value, for the driver loop. */
  function FileProcessor(p: Processor, disk: Disk): (process: string -> Result<Table>)
    requires Readable(disk)
    ensures forall name :: process(name) == ProcessFile(p, disk, name)
  {
    name => ProcessFile(p, disk, name)
  }

  /** Position of the first name on which `process` fails, or the length of
      the list when it fails on none. */
  function FirstFailure(names: seq<string>, process: string -> Result<Table>): (k: nat)
    ensures k <= |names|
    ensures forall j :: 0 <= j < k ==> process(names[j]).Ok?
    ensures k < |names| ==> process(names[k]).Err?
  {
    if names == [] then 0
    else if process(names[0]).Err? then 0
    else 1 + FirstFailure(names[1..], process)
  }

  /** The loop of `start`: runs `process` on each name in order and writes
      each result to the name's output path before moving on. The first
      failure propagates out of the loop: the files before it have been
      written, the ones after it are never read. */
  method RunQueue(queue: seq<string>, process: string -> Result<Table>)
    returns (written: map<string, Table>, failure: Option<(string, Error)>)
    ensures failure.None? <==> FirstFailure(queue, process) == |queue|
    ensures failure.Some? ==>
              var k := FirstFailure(queue, process);
              k < |queue| && failure.value == (queue[k], process(queue[k]).error)
    ensures written.Keys == set j | 0 <= j < FirstFailure(queue, process) :: OutputPath(queue[j])
    ensures forall j :: 0 <= j < FirstFailure(queue, process) ==>
              written[OutputPath(queue[j])] == process(queue[j]).value
  {
    written := map[];
    failure := None;
    var i := 0;
    while i < |queue|
      invariant i <= |queue|
      invariant forall j :: 0 <= j < i ==> process(queue[j]).Ok?
      invariant written.Keys == set j | 0 <= j < i :: OutputPath(queue[j])
      invariant forall j :: 0 <= j < i ==> written[OutputPath(queue[j])] == process(queue[j]).value
    {
      var name := queue[i];
      var r := process(name);
      if r.Err? {
        failure := Some((name, r.error));
        return;
      }
      var path := OutputPath(name);
      forall j | 0 <= j < i && OutputPath(queue[j]) == path
        ensures queue[j] == name
      {
        OutputPathInjective(queue[j], name);
      }
      written := written[path := r.value];
      i := i + 1;
    }
  }

  /** SFSHistoDataProcessor.start: every exported file has exactly the
      configured column order. */
  method Start(p: Processor, disk: Disk) returns (written: map<string, Table>, failure: Option<(string, Error)>)
    requires Readable(disk)
    ensures failure.None? <==> FirstFailure(Queue(p), FileProcessor(p, disk)) == |Queue(p)|
    ensures failure.Some? ==>
              var k := FirstFailure(Queue(p), FileProcessor(p, disk));
              k < |Queue(p)| && failure.value == (Queue(p)[k], ProcessFile(p, disk, Queue(p)[k]).error)
    ensures written.Keys == set j | 0 <= j < FirstFailure(Queue(p), FileProcessor(p, disk)) :: OutputPath(Queue(p)[j])
    ensures forall j :: 0 <= j < FirstFailure(Queue(p), FileProcessor(p, disk)) ==>
              written[OutputPath(Queue(p)[j])] == ProcessFile(p, disk, Queue(p)[j]).value
    ensures forall path :: path in written ==>
              p.config.Some? && written[path].columns == p.config.value.reorderedColumns
  {
    var queue, process := Queue(p), FileProcessor(p, disk);
    written, failure := RunQueue(queue, process);
    var k := FirstFailure(queue, process);
    forall path | path in written
      ensures p.config.Some? && written[path].columns == p.config.value.reorderedColumns
    {
      var j :| 0 <= j < k && path == OutputPath(queue[j]);
      assert process(queue[j]).Ok?;
    }
    if failure.Some? {
      assert queue[k] in queue;
    }
  }
}
