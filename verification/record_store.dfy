/**
 * The on-disk layout of exception records: where `write_exception_to_file`
 * puts a record, and how the reporter turns a type directory's name back
 * into an exception class name.
 *
 *   <exceptions_dir>/<Class name, '::' as '_'>/<%F>/<%H>/<%Y-%m-%dT%H:%M:%S>.<t.to_i mod 1000>.txt
 *
 * Instants are seconds on the local wall clock, so the last number is
 * taken from those seconds rather than from UTC epoch seconds.
 */
module RecordStore {
  import opened Text
  import opened Clock

  /** `name.gsub('::', '_')`: pairs of colons are replaced left to right. */
  function EncodeTypeName(name: string): (r: string)
    ensures |r| <= |name|
    ensures '/' !in name ==> '/' !in r
  {
    if |name| == 0 then ""
    else if |name| >= 2 && name[0] == ':' && name[1] == ':' then "_" + EncodeTypeName(name[2..])
    else [name[0]] + EncodeTypeName(name[1..])
  }

  /** `dir.gsub('_', '::')`: every underscore becomes a pair of colons. */
  function DecodeTypeName(dir: string): (r: string)
    ensures '_' !in r
    ensures '/' !in dir ==> '/' !in r
    ensures |r| >= |dir|
  {
    if |dir| == 0 then ""
    else (if dir[0] == '_' then "::" else [dir[0]]) + DecodeTypeName(dir[1..])
  }

  /**
   * A class name without underscores survives the trip to disk and back:
   * the reporter shows the name the capture code saw.
   */
  lemma {:induction false} DecodeEncode(name: string)
    requires '_' !in name
    ensures DecodeTypeName(EncodeTypeName(name)) == name
    decreases |name|
  {
    if |name| == 0 {
    } else if |name| >= 2 && name[0] == ':' && name[1] == ':' {
      var tail := name[2..];
      assert name == "::" + tail;
      assert forall ch :: ch in tail ==> ch in name;
      DecodeEncode(tail);
      EncodePair(tail);
      DecodeUnderscore(EncodeTypeName(tail));
    } else {
      var tail := name[1..];
      assert name == [name[0]] + tail;
      assert forall ch :: ch in tail ==> ch in name;
      DecodeEncode(tail);
      EncodeOther(name[0], tail);
      DecodeOther(name[0], EncodeTypeName(tail));
    }
  }

  lemma EncodePair(tail: string)
    ensures EncodeTypeName("::" + tail) == "_" + EncodeTypeName(tail)
  {
    assert ("::" + tail)[2..] == tail;
  }

  lemma EncodeOther(h: char, tail: string)
    requires !(h == ':' && |tail| >= 1 && tail[0] == ':')
    ensures EncodeTypeName([h] + tail) == [h] + EncodeTypeName(tail)
  {
    assert ([h] + tail)[1..] == tail;
  }

  lemma DecodeUnderscore(e: string)
    ensures DecodeTypeName("_" + e) == "::" + DecodeTypeName(e)
  {
    assert ("_" + e)[1..] == e;
  }

  lemma DecodeOther(h: char, e: string)
    requires h != '_'
    ensures DecodeTypeName([h] + e) == [h] + DecodeTypeName(e)
  {
    assert ([h] + e)[1..] == e;
  }

  /** A directory name without colons is the encoding of the name shown for it. */
  lemma {:induction false} EncodeDecode(dir: string)
    requires ':' !in dir
    ensures EncodeTypeName(DecodeTypeName(dir)) == dir
    decreases |dir|
  {
    if |dir| > 0 {
      var tail := dir[1..];
      assert forall ch :: ch in tail ==> ch in dir;
      EncodeDecode(tail);
      var rest := DecodeTypeName(tail);
      if dir[0] == '_' {
        assert dir == "_" + tail;
        DecodeUnderscore(tail);
        EncodePair(rest);
      } else {
        assert dir == [dir[0]] + tail;
        DecodeOther(dir[0], tail);
        EncodeOther(dir[0], rest);
      }
    }
  }

  /** A name without colons is stored under its own name. */
  lemma {:induction false} EncodeWithoutColons(name: string)
    requires ':' !in name
    ensures EncodeTypeName(name) == name
    decreases |name|
  {
    if |name| > 0 {
      EncodeWithoutColons(name[1..]);
    }
  }

  /**
   * A class name with an underscore (and no `::`) does not come back: the
   * reporter shows `::` where the class had `_`.
   */
  lemma UnderscoreNameMisread(name: string)
    requires ':' !in name && '_' in name
    ensures DecodeTypeName(EncodeTypeName(name)) != name
  {
    EncodeWithoutColons(name);
  }

  /** `"#{path}"` of `write_exception_to_file`: `dir/<encoded name>/<%F>/<%H>`. */
  function RecordDir(exceptionsDir: string, className: string, t: int): string
  {
    exceptionsDir + "/" + EncodeTypeName(className) + "/" + DateString(t) + "/" + HourString(t)
  }

  /** The record's file name: `%Y-%m-%dT%H:%M:%S`, then `.`, `t.to_i % 1000` and `.txt`. */
  function RecordFileName(t: int): string
  {
    DateString(t) + "T" + ClockString(t) + "." + NatToString(t % 1000) + ".txt"
  }

  /** The full path of the record written at instant `t`. */
  function RecordPath(exceptionsDir: string, className: string, t: int): string
  {
    RecordDir(exceptionsDir, className, t) + "/" + RecordFileName(t)
  }
}
