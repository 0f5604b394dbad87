/** The argument guards used by the entity constructors and `Money`. Each
    returns its input unchanged or throws a `DomainException`. */
module Guard {
  import opened Results
  import opened Exceptions
  import opened Text
  import opened Guids

  /** Rejects a null, empty or all-white-space string; otherwise returns it untrimmed. */
  function NotNullOrWhiteSpace(value: Option<string>, parameterName: string): (r: Outcome<string>)
    ensures r.Ok? <==> value.Some? && exists i :: 0 <= i < |value.value| && !IsWhiteSpace(value.value[i])
    ensures r.Ok? ==> r.value == value.value
    ensures r.Err? ==> r.error == DomainError(parameterName + " is required.")
  {
    if IsNullOrWhiteSpace(value) then Err(DomainError(parameterName + " is required."))
    else Ok(value.value)
  }

  /** Rejects a string longer than `maxLength`, measured as `string.Length`
      in UTF-16 code units; a string of exactly that length passes. */
  function MaxLength(value: string, maxLength: nat, parameterName: string): (r: Outcome<string>)
    ensures r.Ok? <==> Utf16Length(value) <= maxLength
    ensures r.Ok? ==> r.value == value
    ensures r.Err? ==> r.error == DomainError(parameterName + " must not exceed " + NatToString(maxLength) + " characters.")
  {
    if Utf16Length(value) > maxLength then
      Err(DomainError(parameterName + " must not exceed " + NatToString(maxLength) + " characters."))
    else Ok(value)
  }

  /** Rejects `Guid.Empty`. */
  function NotEmpty(value: Guid, parameterName: string): (r: Outcome<Guid>)
    ensures r.Ok? <==> value != 0
    ensures r.Ok? ==> r.value == value
    ensures r.Err? ==> r.error == DomainError(parameterName + " cannot be empty.")
  {
    if value == Empty then Err(DomainError(parameterName + " cannot be empty.")) else Ok(value)
  }

  /** "valid" and "  valid  " pass unchanged; null, "" and "   " fail with "TestParam is required.". */
  lemma NotNullOrWhiteSpaceExamples()
    ensures NotNullOrWhiteSpace(Some("valid"), "TestParam") == Ok("valid")
    ensures NotNullOrWhiteSpace(Some("  valid  "), "TestParam") == Ok("  valid  ")
    ensures NotNullOrWhiteSpace(None, "TestParam") == Err(DomainError("TestParam is required."))
    ensures NotNullOrWhiteSpace(Some(""), "TestParam") == Err(DomainError("TestParam is required."))
    ensures NotNullOrWhiteSpace(Some("   "), "TestParam") == Err(DomainError("TestParam is required."))
  {
    assert !IsWhiteSpace("valid"[0]);
    assert !IsWhiteSpace("  valid  "[2]);
    assert "TestParam" + " is required." == "TestParam is required.";
  }

  /** "hello" passes a limit of 10 and of 5; "hello world" fails a limit of 5. */
  lemma MaxLengthExamples()
    ensures MaxLength("hello", 10, "TestParam") == Ok("hello")
    ensures MaxLength("hello", 5, "TestParam") == Ok("hello")
    ensures MaxLength("hello world", 5, "TestParam") == Err(DomainError("TestParam must not exceed 5 characters."))
  {
    assert Utf16Length("hello") == 5 by {
      assert InBasicPlane("hello");
      Utf16LengthIsLength("hello");
    }
    assert NatToString(5) == "5";
    assert "TestParam" + " must not exceed " + "5" + " characters." == "TestParam must not exceed 5 characters.";
  }
}
