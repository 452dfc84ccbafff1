/**
 The call protocol of the batch file writer, in the absence of I/O faults: one
 header, and nothing before it. The encodings of headers, statistics and file
 entries are parameters.
 */
module BatchWriter {
  import opened Prelude

  datatype Refusal = HeaderAlreadyWritten | HeaderMissing | NotOpen

  datatype Call<Config, Flags> =
    | WriteHeader(flags: Flags)
    | Write(bytes: seq<Byte>)      // write_data, write_stats and write_file_entry
    | SetConfig(config: Config)    // through config_mut
    | Flush

  datatype State<Config, Flags> =
    State(config: Config, open: bool, headerWritten: bool, streamFlags: Flags, file: seq<Byte>)

  function Step<Config, Flags>(s: State<Config, Flags>, c: Call<Config, Flags>, header: (Config, Flags) -> seq<Byte>)
      : (State<Config, Flags>, Option<Refusal>)
  {
    match c
    case WriteHeader(flags) =>
      if s.headerWritten then (s, Some(HeaderAlreadyWritten))
      else if !s.open then (s.(streamFlags := flags), Some(NotOpen))
      else (s.(streamFlags := flags, headerWritten := true, file := s.file + header(s.config, flags)), None)
    case Write(bytes) =>
      if !s.headerWritten then (s, Some(HeaderMissing))
      else if !s.open then (s, Some(NotOpen))
      else (s.(file := s.file + bytes), None)
    case SetConfig(config) => (s.(config := config), None)
    case Flush => (s, None)
  }

  class Writer<Config, Flags> {
    var config: Config
    var batchFile: Option<seq<Byte>>
    var headerWritten: bool
    var streamFlags: Flags
    ghost var written: seq<Byte>
    const header: (Config, Flags) -> seq<Byte>

    ghost predicate Valid()
      reads this
    {
      batchFile.Some? ==> batchFile.value == written
    }

    ghost function View(): State<Config, Flags>
      reads this
    {
      State(config, batchFile.Some?, headerWritten, streamFlags, written)
    }

    constructor (config: Config, defaultFlags: Flags, header: (Config, Flags) -> seq<Byte>)
      ensures Valid() && this.header == header && View() == State(config, true, false, defaultFlags, [])
    {
      this.config, this.header := config, header;
      batchFile, headerWritten, streamFlags, written := Some([]), false, defaultFlags, [];
    }

    method PutHeader(flags: Flags) returns (refused: Option<Refusal>)
      requires Valid()
      modifies this
      ensures Valid() && (View(), refused) == Step(old(View()), WriteHeader(flags), header)
    {
      if headerWritten { return Some(HeaderAlreadyWritten); }
      streamFlags := flags;
      if batchFile.None? { return Some(NotOpen); }
      var bytes := header(config, flags);
      batchFile := Some(batchFile.value + bytes);
      written := written + bytes;
      headerWritten := true;
      return None;
    }

    method Put(bytes: seq<Byte>) returns (refused: Option<Refusal>)
      requires Valid()
      modifies this
      ensures Valid() && (View(), refused) == Step(old(View()), Write(bytes), header)
    {
      if !headerWritten { return Some(HeaderMissing); }
      if batchFile.None? { return Some(NotOpen); }
      batchFile := Some(batchFile.value + bytes);
      written := written + bytes;
      return None;
    }

    /** Closes the file; what was written stays. */
    method Finalize()
      requires Valid()
      modifies this
      ensures Valid() && View() == old(View()).(open := false)
    {
      batchFile := None;
    }
  }

  // ------------------------------------------------------------ whole runs

  function Run<Config, Flags>(start: State<Config, Flags>, calls: seq<Call<Config, Flags>>,
                              header: (Config, Flags) -> seq<Byte>): State<Config, Flags>
  {
    if calls == [] then start
    else Step(Run(start, calls[..|calls| - 1], header), calls[|calls| - 1], header).0
  }

  /** The position of the first header call, or the length of the run. */
  function HeaderAt<Config, Flags>(calls: seq<Call<Config, Flags>>): (n: nat)
    ensures n <= |calls|
    ensures n < |calls| ==> calls[n].WriteHeader?
    ensures forall i :: 0 <= i < n ==> !calls[i].WriteHeader?
  {
    if calls == [] then 0
    else
      var n := HeaderAt(calls[..|calls| - 1]);
      if n < |calls| - 1 || calls[|calls| - 1].WriteHeader? then n else n + 1
  }

  /** The configuration in force after these calls. */
  function ConfigAfter<Config, Flags>(config: Config, calls: seq<Call<Config, Flags>>): Config {
    if calls == [] then config
    else
      var last := calls[|calls| - 1];
      if last.SetConfig? then last.config else ConfigAfter(config, calls[..|calls| - 1])
  }

  /** The bytes handed to the write calls, in order. */
  function Payload<Config, Flags>(calls: seq<Call<Config, Flags>>): seq<Byte> {
    if calls == [] then []
    else
      var before, last := Payload(calls[..|calls| - 1]), calls[|calls| - 1];
      if last.Write? then before + last.bytes else before
  }

  /**
   What a fresh writer must look like after these calls, said without running them.
   Before the first header call the file is empty and the flags are the defaults; from
   it on the file is that header, encoded with the configuration then in force,
   followed by everything written since, and the recorded flags are the header's.
   */
  function Expected<Config, Flags>(config: Config, flags: Flags, calls: seq<Call<Config, Flags>>,
                                   header: (Config, Flags) -> seq<Byte>): State<Config, Flags>
  {
    var h, now := HeaderAt(calls), ConfigAfter(config, calls);
    if h == |calls| then State(now, true, false, flags, [])
    else State(now, true, true, calls[h].flags,
               header(ConfigAfter(config, calls[..h]), calls[h].flags) + Payload(calls[h + 1..]))
  }

  lemma PayloadSnoc<Config, Flags>(calls: seq<Call<Config, Flags>>, c: Call<Config, Flags>)
    ensures Payload(calls + [c]) == if c.Write? then Payload(calls) + c.bytes else Payload(calls)
  {
    assert (calls + [c])[..|calls|] == calls;
  }

  lemma ExpectedStep<Config, Flags>(config: Config, flags: Flags, calls: seq<Call<Config, Flags>>,
                                    header: (Config, Flags) -> seq<Byte>)
    requires calls != []
    ensures Step(Expected(config, flags, calls[..|calls| - 1], header), calls[|calls| - 1], header).0
         == Expected(config, flags, calls, header)
  {
    var front, last := calls[..|calls| - 1], calls[|calls| - 1];
    var h := HeaderAt(front);
    if h < |front| {
      assert calls[..h] == front[..h] && calls[h] == front[h];
      assert calls[h + 1..] == front[h + 1..] + [last];
      PayloadSnoc(front[h + 1..], last);
      var first := header(ConfigAfter(config, front[..h]), front[h].flags);
      if last.Write? {
        assert (first + Payload(front[h + 1..])) + last.bytes == first + (Payload(front[h + 1..]) + last.bytes);
      }
    } else if last.WriteHeader? {
      assert calls[..h] == front && calls[h + 1..] == [];
      assert header(ConfigAfter(config, front), last.flags) + Payload(calls[h + 1..])
          == [] + header(ConfigAfter(config, front), last.flags);
    }
  }

  /** Every run leaves the writer as expected. */
  lemma {:induction false} FileIsHeaderThenWrites<Config, Flags>(
      config: Config, flags: Flags, calls: seq<Call<Config, Flags>>, header: (Config, Flags) -> seq<Byte>)
    ensures Run(State(config, true, false, flags, []), calls, header) == Expected(config, flags, calls, header)
  {
    if calls != [] {
      FileIsHeaderThenWrites(config, flags, calls[..|calls| - 1], header);
      ExpectedStep(config, flags, calls, header);
    }
  }

  /** A call is refused exactly when it is a second header, or a write before the first. */
  lemma RefusedExactly<Config, Flags>(
      config: Config, flags: Flags, calls: seq<Call<Config, Flags>>, header: (Config, Flags) -> seq<Byte>,
      next: Call<Config, Flags>)
    ensures
      var s := Run(State(config, true, false, flags, []), calls, header);
      Step(s, next, header).1 ==
        if next.WriteHeader? && HeaderAt(calls) < |calls| then Some(HeaderAlreadyWritten)
        else if next.Write? && HeaderAt(calls) == |calls| then Some(HeaderMissing)
        else None
  {
    FileIsHeaderThenWrites(config, flags, calls, header);
  }
}
