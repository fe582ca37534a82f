// crates/storage-node/src/main.rs: which names a client may use, and why they never
// meet the names the node uses for its own temporary files.
module StorageKeys {
  import opened Prelude
  import opened Text

  datatype KeyError = InvalidLength | InvalidCharacters

  const MAX_KEY_BYTES: nat := 255

  predicate IsKeyChar(c: char)
  {
    IsAsciiAlphanumeric(c) || c == '_' || c == '-' || c == '.'
  }

  // The checks in the order the node makes them.
  ghost function ValidateStorageKey(key: string): Result<Unit, KeyError>
  {
    if key == [] || ByteLength(key) > MAX_KEY_BYTES then Err(InvalidLength)
    else if
      || key[0] == '/'                          // Path::is_absolute
      || key[0] == '.'
      || Contains(key, "..")
      || (exists c | c in key :: c in {'/', '\\', '%', ':', '?', '#'})
      || (exists c | c in key :: IsControl(c))
      || !(forall c | c in key :: IsKeyChar(c))
    then Err(InvalidCharacters)
    else Ok(Unit)
  }

  // What an accepted key is, without the checks that the character whitelist subsumes
  // and without counting bytes.
  ghost predicate ValidKey(key: string)
  {
    && 1 <= |key| <= 255
    && key[0] != '.'
    && (forall c | c in key :: 'a' <= c <= 'z' || 'A' <= c <= 'Z' || '0' <= c <= '9' || c == '_' || c == '-' || c == '.')
    && forall i :: !DotPairAt(key, i)
  }

  predicate DotPairAt(key: string, i: int)
  {
    0 <= i < |key| - 1 && key[i] == '.' && key[i + 1] == '.'
  }

  lemma KeyCharIsAscii(key: string)
    requires forall c | c in key :: IsKeyChar(c)
    ensures ByteLength(key) == |key|
    ensures forall c | c in key :: !IsControl(c) && c !in {'/', '\\', '%', ':', '?', '#'}
  {
    forall i | 0 <= i < |key| ensures key[i] <= '\U{7F}' {
      assert IsKeyChar(key[i]);
    }
  }

  // The validator accepts exactly the keys of ValidKey.
  lemma ValidatorAcceptsExactlyValidKeys(key: string)
    ensures ValidateStorageKey(key).Ok? <==> ValidKey(key)
  {
    if forall c | c in key :: IsKeyChar(c) {
      KeyCharIsAscii(key);
      assert key != [] ==> key[0] in key;
      if Contains(key, "..") {
        var i :| 0 <= i <= |key| && OccursAt(key, "..", i);
        assert key[i] == key[i..i + 2][0] && key[i + 1] == key[i..i + 2][1];
        assert DotPairAt(key, i);
      }
      if i :| DotPairAt(key, i) {
        assert OccursAt(key, "..", i);
      }
    }
  }

  const TEMP_PREFIX: string := ".upload-"

  // The stamp stands for the key digest label and the nanosecond clock reading.
  function TempName(stamp: string): string
  {
    TEMP_PREFIX + stamp
  }

  // A temporary file can never be reached through a client's key.
  lemma TempNamesAreNotKeys(stamp: string)
    ensures ValidateStorageKey(TempName(stamp)).Err?
    ensures !ValidKey(TempName(stamp))
  {
    assert TempName(stamp)[0] == '.';
    ValidatorAcceptsExactlyValidKeys(TempName(stamp));
  }
}
