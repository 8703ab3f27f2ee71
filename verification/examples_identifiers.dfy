/** The identifier-extraction examples documented for the library, proved from the round-trip lemmas. */
module IdentifierExamples {
  import opened Wrappers
  import opened Identifiers

  /** The documented `users/` URL shape. */
  lemma UserToIdDirectExample()
    ensures UserToId("users/8:alice") == Some("alice")
  {
    var url := "users/8:alice";
    assert url == "" + (if false then "users/ME/contacts/" else "users/") + "8" + ":" + "alice" + "";
    UserToIdRoundTrip(url, "", false, "8", "alice", "");
  }

  /** The documented `users/ME/contacts/` URL shape. */
  lemma UserToIdContactsExample()
    ensures UserToId("users/ME/contacts/8:bob") == Some("bob")
  {
    var url := "users/ME/contacts/8:bob";
    assert url == "" + (if true then "users/ME/contacts/" else "users/") + "8" + ":" + "bob" + "";
    UserToIdRoundTrip(url, "", true, "8", "bob", "");
  }

  /** A group-conversation URL: the identifier keeps its thread suffix. */
  lemma ChatToIdThreadExample()
    ensures ChatToId("conversations/19:abc@thread.skype") == Some("19:abc@thread.skype")
  {
    var url, digits, id := "conversations/19:abc@thread.skype", "19", "abc";
    assert "19:abc@thread.skype" == digits + ":" + id + (if true then ThreadSuffix else "") by {}
    assert url == "" + "conversations/" + digits + ":" + id + (if true then ThreadSuffix else "") + "" by {}
    ChatToIdRoundTrip(url, "", digits, id, true, "");
  }

  /** A one-to-one conversation URL has no suffix to keep. */
  lemma ChatToIdSingleExample()
    ensures ChatToId("conversations/8:bob") == Some("8:bob")
  {
    var url := "conversations/8:bob";
    assert url == "" + "conversations/" + "8" + ":" + "bob" + (if false then ThreadSuffix else "") + "";
    assert "8" + ":" + "bob" + (if false then ThreadSuffix else "") == "8:bob";
    ChatToIdRoundTrip(url, "", "8", "bob", false, "");
  }

  /** A full URL: the search skips the scheme and host before `users/`. */
  lemma UserToIdFullUrlExample()
    ensures UserToId("https://api/users/8:alice") == Some("alice")
  {
    var url, pre := "https://api/users/8:alice", "https://api/";
    assert url == pre + (if false then "users/ME/contacts/" else "users/") + "8" + ":" + "alice" + "" by {}
    assert 'u' !in pre && AllIn("8", Digits) && EndsIdRun("alice", "") by {}
    UserToIdAfterPlainPrefix(url, pre, false, "8", "alice", "");
  }

  /** A full URL: the search skips the scheme and host before `conversations/`. */
  lemma ChatToIdFullUrlExample()
    ensures ChatToId("https://api/conversations/8:bob") == Some("8:bob")
  {
    var url, pre := "https://api/conversations/8:bob", "https://api/";
    assert url == pre + "conversations/" + "8" + ":" + "bob" + (if false then ThreadSuffix else "") + "" by {}
    assert "8" + ":" + "bob" + (if false then ThreadSuffix else "") == "8:bob" by {}
    assert 'c' !in pre && AllIn("8", Digits) && EndsIdRun("bob", "") && !LiteralAt("", 0, ThreadSuffix) by {}
    ChatToIdAfterPlainPrefix(url, pre, "8", "bob", false, "");
  }
}
