/**
 * The two paths together: what the write path stores for an `@EncryptField`
 * column and what the read path makes of it. The cipher is uninterpreted, so
 * its round trip is a hypothesis here, never a fact.
 */
module RoundTrip {
  import opened Wrappers
  import opened Sensitive
  import WriteInterceptor
  import ReadInterceptor

  /**
   * A string field carrying only `@EncryptField` is stored as its ciphertext
   * for every command; when that ciphertext passes the read gate and the
   * cipher round-trips on it, the read path hands back the original string.
   */
  lemma EncryptedFieldRoundTrip(env: Collaborators, tags: FieldTags, cmd: SqlCommandType, plain: string, cipher: string)
    requires tags == FieldTags(true, None, None, None)
    requires env.encrypt(plain) == Ok(cipher) && env.decrypt(cipher) == Ok(plain)
    requires ReadInterceptor.Decryptable(cipher)
    ensures WriteInterceptor.FieldNewValue(env, tags, cmd, Str(plain)) == Ok(Str(cipher))
    ensures ReadInterceptor.DecryptedValue(env, Str(cipher)) == Str(plain)
  {
  }

  /**
   * A field carrying both `@EncryptField` and `@SensitiveField`, written by an
   * INSERT or UPDATE whose ciphertext is not recognised as masked, is stored
   * as the mask of the CIPHERTEXT: the strategy never sees the plain text.
   */
  lemma EncryptedAndMaskedStoresMaskOfCiphertext(env: Collaborators, tags: FieldTags, cmd: SqlCommandType,
                                                 plain: string, cipher: string, kind: SensitiveType)
    requires tags == FieldTags(true, Some(kind), None, None)
    requires WriteInterceptor.IsWriteCommand(cmd)
    requires env.encrypt(plain) == Ok(cipher) && !env.alreadyBeSensitived(Str(cipher))
    ensures env.handle(kind, Str(cipher)).Ok? ==>
      WriteInterceptor.FieldNewValue(env, tags, cmd, Str(plain)) == Ok(StrOrNull(env.handle(kind, Str(cipher)).value))
    ensures env.handle(kind, Str(cipher)).Err? ==> WriteInterceptor.FieldNewValue(env, tags, cmd, Str(plain)).Err?
  {
  }
}
