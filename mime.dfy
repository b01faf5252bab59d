/** MIME type resolution of JCRLocalCMISDrive.findMimetype. */
module MimeTypes {
  import opened Wrappers

  /**
   * The ExtendedMimeTypeResolver the drive consults: its default type and its
   * name-based guess (foreign code, so a parameter of the model).
   */
  datatype MimeResolver = MimeResolver(defaultType: string, guess: string -> Option<string>)

  /** A type that must be resolved further: absent, or prefixed by the default type. */
  predicate NeedsResolution(r: MimeResolver, fileType: Option<string>) {
    fileType.None? || StartsWith(fileType.value, r.defaultType)
  }

  /**
   * findMimetype(fileName, fileType, alternativeType): keep an explicit type, else
   * the guess by name, else the alternative (locally stored) type, else the default.
   * The result is never null.
   */
  function FindMimetype(r: MimeResolver, fileName: string, fileType: Option<string>,
                        alternativeType: Option<string>): (t: string)
    // an explicit type that is not default-prefixed is returned unchanged
    ensures !NeedsResolution(r, fileType) ==> t == fileType.value
    // otherwise a usable guess wins ...
    ensures NeedsResolution(r, fileType) && !NeedsResolution(r, r.guess(fileName)) ==>
              t == r.guess(fileName).value
    // ... then the alternative type ...
    ensures (NeedsResolution(r, fileType) && NeedsResolution(r, r.guess(fileName)) &&
             alternativeType.Some?) ==> t == alternativeType.value
    // ... then the default
    ensures (NeedsResolution(r, fileType) && NeedsResolution(r, r.guess(fileName)) &&
             alternativeType.None?) ==> t == r.defaultType
    // a default-prefixed result comes only from the alternative type or the default itself
    ensures StartsWith(t, r.defaultType) ==> t == r.defaultType || alternativeType == Some(t)
  {
    if NeedsResolution(r, fileType) then
      var resolved := r.guess(fileName);
      if resolved.Some? && !StartsWith(resolved.value, r.defaultType) then resolved.value
      else if alternativeType.Some? then alternativeType.value
      else r.defaultType
    else
      fileType.value
  }
}
