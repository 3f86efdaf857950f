/**
 * The two string helpers the RawInput provider uses to find a friendlier
 * name for a device: trim_prefix, which drops everything up to the last
 * ';' of a registry DeviceDesc value, and compute_device_regpath, which
 * turns a raw device name such as \??\HID#VID_045E&PID_0040#6&1d2c&0&0000#{...}
 * into the registry key SYSTEM\CurrentControlSet\Enum\HID\VID_045E&PID_0040\6&1d2c&0&0000.
 */
module RawInputNames {

  /** basepath of compute_device_regpath. */
  const BasePath: string := "SYSTEM\\CurrentControlSet\\Enum\\"

  /**
   * trim_prefix: the part of a name after its last ';', or the whole
   * name when it has none. The result is the longest suffix free of ';'.
   */
  function TrimPrefix(name: string): (r: string)
    ensures ';' !in r
    ensures |r| <= |name| && r == name[|name| - |r|..]
    ensures |r| < |name| ==> name[|name| - |r| - 1] == ';'
    ensures ';' !in name ==> r == name
  {
    if |name| == 0 then name
    else if name[|name| - 1] == ';' then []
    else
      var front := name[..|name| - 1];
      assert name == front + [name[|name| - 1]];
      TrimPrefix(front) + [name[|name| - 1]]
  }

  /** Whatever precedes the last ';', the result is exactly what follows it. */
  lemma {:induction false} TrimPrefixAfterLast(before: string, after: string)
    requires ';' !in after
    ensures TrimPrefix(before + [';'] + after) == after
  {
    var name := before + [';'] + after;
    var r := TrimPrefix(name);
    assert name[|before|] == ';';
    assert forall k :: 0 <= k < |r| ==> r[k] == name[|name| - |r| + k];
    assert |name| - |r| > |before|;
    assert name[|before| + 1..] == after;
  }

  /** Trimming twice trims no more than trimming once. */
  lemma TrimPrefixIdempotent(name: string)
    ensures TrimPrefix(TrimPrefix(name)) == TrimPrefix(name)
  {
  }

  /** The part of the raw name after its four-character prefix, with every '#' turned into '\'. */
  function Converted(name: string): (r: string)
    ensures |r| == if |name| <= 4 then 0 else |name| - 4
  {
    if |name| <= 4 then []
    else seq(|name| - 4, k requires 0 <= k < |name| - 4 => if name[k + 4] == '#' then '\\' else name[k + 4])
  }

  /**
   * compute_device_regpath: the base path followed by the converted name,
   * cut at its last '\' (the instance part of the name is dropped). The
   * base path ends with '\', so a cut point always exists; when the
   * converted name has no '\' of its own the result is the base path
   * without its final '\'. The raw name comes from a NUL-terminated
   * buffer and so holds no NUL, which is what lets wcsrchr see all of it.
   */
  method ComputeDeviceRegpath(name: string) returns (path: string)
    requires '\0' !in name
    ensures var full := BasePath + Converted(name);
      |BasePath| - 1 <= |path| < |full| && path == full[..|path|] &&
      full[|path|] == '\\' && '\\' !in full[|path| + 1..]
    ensures '#' !in path[|BasePath| - 1..]
    ensures |path| >= |BasePath| <==> '\\' in Converted(name)
  {
    var buffer, dst := ConcatConverted(name);
    ghost var full := BasePath + Converted(name);
    var j := LastSeparator(buffer, |BasePath| - 1, dst);
    path := buffer[..j];
    assert full[j + 1..] == buffer[j + 1..dst];
    CutAtSeparator(name, j);
  }

  /**
   * The first part of compute_device_regpath: the base path copied into a
   * fresh buffer, followed by the converted name.
   */
  method ConcatConverted(name: string) returns (buffer: array<char>, dst: nat)
    ensures dst <= buffer.Length && buffer[..dst] == BasePath + Converted(name)
  {
    buffer := new char[|BasePath| + 1 + |name|];
    CopyBase(buffer);
    dst := |BasePath|;
    var i := 4;
    while i < |name|
      invariant 4 <= i && (i <= |name| || i == 4) && dst == |BasePath| + i - 4 <= |BasePath| + |name|
      invariant buffer[..|BasePath|] == BasePath
      invariant buffer[|BasePath|..dst] == Converted(name)[..i - 4]
    {
      buffer[dst] := if name[i] == '#' then '\\' else name[i];
      assert Converted(name)[..i - 3] == Converted(name)[..i - 4] + [buffer[dst]];
      dst := dst + 1;
      i := i + 1;
    }
    if |name| > 4 {
      assert Converted(name)[..i - 4] == Converted(name);
    }
    assert buffer[..dst] == buffer[..|BasePath|] + buffer[|BasePath|..dst];
  }

  /** wcscpy of the base path to the start of buffer. */
  method CopyBase(buffer: array<char>)
    requires |BasePath| <= buffer.Length
    modifies buffer
    ensures buffer[..|BasePath|] == BasePath
  {
    for k := 0 to |BasePath|
      invariant buffer[..k] == BasePath[..k]
    {
      buffer[k] := BasePath[k];
    }
  }

  /** What cutting the converted path at its last separator leaves. */
  lemma CutAtSeparator(name: string, j: nat)
    requires var full := BasePath + Converted(name);
      |BasePath| - 1 <= j < |full| && full[j] == '\\' && '\\' !in full[j + 1..]
    ensures '#' !in (BasePath + Converted(name))[..j][|BasePath| - 1..]
    ensures j >= |BasePath| <==> '\\' in Converted(name)
  {
    var full := BasePath + Converted(name);
    ConvertedHasNoHash(name);
    if j >= |BasePath| {
      assert full[|BasePath| - 1..j] == [full[|BasePath| - 1]] + Converted(name)[..j - |BasePath|];
    }
    assert full[..j][|BasePath| - 1..] == full[|BasePath| - 1..j];
    if '\\' in Converted(name) {
      var k :| 0 <= k < |Converted(name)| && Converted(name)[k] == '\\';
      assert full[|BasePath| + k] == '\\';
    }
  }

  /** wcsrchr for the separator over the first len characters, given that the one at index floor is a separator. */
  method LastSeparator(buffer: array<char>, floor: nat, len: nat) returns (j: nat)
    requires floor < len <= buffer.Length && buffer[floor] == '\\'
    ensures floor <= j < len && buffer[j] == '\\' && '\\' !in buffer[j + 1..len]
  {
    j := len - 1;
    while buffer[j] != '\\'
      invariant floor <= j < len
      invariant '\\' !in buffer[j + 1..len]
      decreases j
    {
      assert buffer[j..len] == [buffer[j]] + buffer[j + 1..len];
      j := j - 1;
    }
  }

  lemma ConvertedHasNoHash(name: string)
    ensures '#' !in Converted(name)
  {
  }
}
