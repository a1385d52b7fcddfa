/**
 * The WordPress and PHP functions the mailer calls but whose code is not
 * part of this model. Each is a field of `Env`, so every property proved
 * about the mailer holds for every behaviour of these functions.
 */
module Host {
  import opened Php

  newtype Byte = x: int | 0 <= x < 256

  datatype Env = Env(
    /** `sanitize_text_field`, applied to header names. */
    sanitizeText: Scalar -> string,
    /** `WP::sanitize_value`, applied to header values. */
    sanitizeValue: Scalar -> Scalar,
    /** `filter_var($s, FILTER_VALIDATE_EMAIL)` succeeding. */
    isEmail: string -> bool,
    /** `is_file` and `is_readable` followed by `file_get_contents`: the
        file's bytes, or None when any step fails or throws. */
    readFile: string -> Option<seq<Byte>>,
    /** `base64_encode`. */
    base64: seq<Byte> -> string
  )
}
