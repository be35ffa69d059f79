/** The session's access decision. The authenticator's verdict is a string,
    and every permission check compares it with the exact text "OWNER";
    any other value, including "GUEST", gets guest treatment. */
module AccessMode {
  const Owner := "OWNER"
  const Guest := "GUEST"
}
